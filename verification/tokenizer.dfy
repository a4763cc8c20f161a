/** The tokenizer `addValue` applies to a raw attribute value: Java's
    `value.split(",\\s*")`. A piece ends at each comma; the comma and the
    whole run of whitespace right after it are the separator. Whitespace at
    the very start, or before a comma, stays inside a piece. */
module Tokenizer {

  /** The characters of Java's regex class `\s`: space, tab, line feed,
      vertical tab, form feed, carriage return. */
  predicate IsWhitespace(c: char) {
    c == ' ' || c == '\t' || c == '\n' || c == '\U{B}' || c == '\U{C}' || c == '\r'
  }

  /** What `\s*` consumes after a comma: the longest whitespace prefix. */
  function DropWhitespace(s: string): (r: string)
    ensures |r| <= |s| && r == s[|s| - |r|..]
    ensures forall i :: 0 <= i < |s| - |r| ==> IsWhitespace(s[i])
    ensures r == [] || !IsWhitespace(r[0])
  {
    if s != [] && IsWhitespace(s[0]) then
      var r := DropWhitespace(s[1..]);
      assert s[1..][|s| - 1 - |r|..] == s[|s| - |r|..];
      assert forall i :: 1 <= i < |s| - |r| ==> s[i] == s[1..][i - 1];
      r
    else s
  }

  /** Pieces that a comma-joined string splits back into: none holds a comma,
      and none but the first starts with whitespace (the separator would have
      swallowed it). */
  ghost predicate Separable(parts: seq<string>) {
    && |parts| >= 1
    && (forall i :: 0 <= i < |parts| ==> ',' !in parts[i])
    && (forall i :: 1 <= i < |parts| ==> parts[i] == [] || !IsWhitespace(parts[i][0]))
  }

  /** The pieces of `s`, empty ones included, left to right. Java's `split`
      also drops trailing empty pieces; every caller here skips empty pieces,
      so keeping them changes nothing downstream. */
  function Split(s: string): (parts: seq<string>)
    ensures Separable(parts)
    ensures parts[0] <= s
    decreases |s|
  {
    if s == [] then [""]
    else if s[0] == ',' then [""] + Split(DropWhitespace(s[1..]))
    else
      var rest := Split(s[1..]);
      [[s[0]] + rest[0]] + rest[1..]
  }

  /** The inverse direction: pieces glued back with single commas. */
  function Join(parts: seq<string>): (s: string)
    requires |parts| >= 1
    decreases |parts|
  {
    if |parts| == 1 then parts[0] else parts[0] + "," + Join(parts[1..])
  }

  lemma {:induction false} SplitNoComma(s: string)
    requires ',' !in s
    ensures Split(s) == [s]
    decreases |s|
  {
    if s != [] {
      SplitNoComma(s[1..]);
      assert [s[0]] + s[1..] == s;
    }
  }

  /** The first comma ends the first piece and the whitespace after it is
      dropped. */
  lemma {:induction false} SplitAtFirstComma(a: string, b: string)
    requires ',' !in a
    ensures Split(a + "," + b) == [a] + Split(DropWhitespace(b))
    decreases |a|
  {
    var s := a + "," + b;
    if a == [] {
      assert s[1..] == b;
    } else {
      assert s[0] == a[0] && s[1..] == a[1..] + "," + b;
      SplitAtFirstComma(a[1..], b);
      var rest := Split(s[1..]);
      assert rest[0] == a[1..] && rest[1..] == Split(DropWhitespace(b));
      assert [a[0]] + a[1..] == a;
      calc {
        Split(s);
        [[s[0]] + rest[0]] + rest[1..];
        [a] + Split(DropWhitespace(b));
      }
    }
  }

  lemma KeepsNonWhitespace(s: string)
    requires s == [] || !IsWhitespace(s[0])
    ensures DropWhitespace(s) == s
  {
  }

  /** A joined string starts with its first piece, or with the comma after
      it when that piece is empty. */
  lemma JoinStart(parts: seq<string>)
    requires |parts| >= 1
    ensures |parts[0]| > 0 ==> |Join(parts)| > 0 && Join(parts)[0] == parts[0][0]
    ensures parts[0] == [] && |parts| > 1 ==> |Join(parts)| > 0 && Join(parts)[0] == ','
    ensures parts[0] == [] && |parts| == 1 ==> Join(parts) == []
  {
  }

  lemma SeparableTail(parts: seq<string>)
    requires Separable(parts) && |parts| > 1
    ensures Separable(parts[1..])
  {
    var tail := parts[1..];
    forall i | 1 <= i < |tail|
      ensures tail[i] == [] || !IsWhitespace(tail[i][0])
    {
      assert tail[i] == parts[i + 1];
    }
  }

  /** The separator after the first piece swallows no character of the
      rest of a separable list. */
  lemma JoinTailKept(parts: seq<string>)
    requires Separable(parts) && |parts| > 1
    ensures DropWhitespace(Join(parts[1..])) == Join(parts[1..])
  {
    var tail := parts[1..];
    assert tail[0] == parts[1];
    JoinStart(tail);
    KeepsNonWhitespace(Join(tail));
  }

  /** Splitting undoes joining, for every separable list of pieces. */
  lemma {:induction false} SplitJoin(parts: seq<string>)
    requires Separable(parts)
    ensures Split(Join(parts)) == parts
    decreases |parts|
  {
    if |parts| == 1 {
      SplitNoComma(parts[0]);
    } else {
      var tail := parts[1..];
      SeparableTail(parts);
      SplitJoin(tail);
      JoinTailKept(parts);
      SplitAfterComma(Join(parts), parts[0], Join(tail), tail);
      ConsTail(parts);
    }
  }

  lemma ConsTail<T>(s: seq<T>)
    requires |s| > 0
    ensures [s[0]] + s[1..] == s
  {
  }

  /** One step of the round trip: a comma-free first piece, then a rest the
      separator leaves alone. */
  lemma SplitAfterComma(s: string, first: string, rest: string, tail: seq<string>)
    requires s == first + "," + rest && ',' !in first
    requires DropWhitespace(rest) == rest && Split(rest) == tail
    ensures Split(s) == [first] + tail
  {
    SplitAtFirstComma(first, rest);
  }

  /** The example the tokenizer's doc comment gives: a list of genres. */
  lemma SplitGenreList(value: string)
    requires value == "Romance, Satire"
    ensures Split(value) == ["Romance", "Satire"]
  {
    var first, second := "Romance", "Satire";
    assert ',' !in first && ',' !in second;
    assert value == first + "," + ([' '] + second);
    SplitAtFirstComma(first, [' '] + second);
    KeepsNonWhitespace(second);
    assert DropWhitespace([' '] + second) == second;
    SplitNoComma(second);
  }
}
