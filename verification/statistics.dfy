/** The multi-attribute frequency table: attribute name -> (value -> count).
    Java keeps it in concurrent maps of atomic integers; here a table is an
    immutable value and every mutator returns the new table. */
module Statistics {
  import opened Results
  import opened Tokenizer

  /** value -> count, for one attribute */
  type Counts = map<string, nat>

  /** attribute -> (value -> count) */
  type Table = map<string, Counts>

  const Empty: Table := map[]

  /** The count of `v` in `m`; a value never recorded counts 0. */
  function CountIn(m: Counts, v: string): nat {
    if v in m then m[v] else 0
  }

  /** The count of value `v` under attribute `a`; absent entries count 0. */
  function Count(t: Table, a: string, v: string): nat {
    if a in t then CountIn(t[a], v) else 0
  }

  /** Every stored count is at least one: entries are only ever created
      together with an increment or a positive addition. */
  ghost predicate Positive(t: Table) {
    forall a, v :: a in t && v in t[a] ==> t[a][v] >= 1
  }

  ghost predicate PositiveCounts(m: Counts) {
    forall v :: v in m ==> m[v] >= 1
  }

  /** `getStats`: the value -> count map of one attribute, or the empty map
      when the attribute was never recorded. */
  function GetStats(t: Table, a: string): (r: Counts)
    ensures a !in t ==> r == map[]
    ensures a in t ==> r.Keys == t[a].Keys
    ensures forall v :: CountIn(r, v) == Count(t, a, v)
  {
    if a in t then t[a] else map[]
  }

  /** `getAllStats`: a copy with the same attributes and, per attribute, the
      same counts. */
  function GetAllStats(t: Table): (r: Table)
    ensures r.Keys == t.Keys
    ensures forall a :: GetStats(r, a) == GetStats(t, a)
  {
    map a | a in t :: GetStats(t, a)
  }

  /** The pieces that are counted: every non-empty one. */
  function NonEmpty(pieces: seq<string>): set<string> {
    set p | p in pieces && p != ""
  }

  /** The loop of `addValue`: skip an empty piece, otherwise create its entry
      at 0 if needed and increment it. */
  function AddPieces(m: Counts, pieces: seq<string>): (r: Counts)
    ensures r.Keys == m.Keys + NonEmpty(pieces)
    ensures forall v :: v != "" ==> CountIn(r, v) == CountIn(m, v) + multiset(pieces)[v]
    ensures CountIn(r, "") == CountIn(m, "")
    ensures PositiveCounts(m) ==> PositiveCounts(r)
    decreases |pieces|
  {
    if pieces == [] then m
    else
      var p := pieces[0];
      PiecesCons(pieces);
      AddPieces(if p == "" then m else m[p := CountIn(m, p) + 1], pieces[1..])
  }

  lemma PiecesCons(pieces: seq<string>)
    requires pieces != []
    ensures multiset(pieces) == multiset{pieces[0]} + multiset(pieces[1..])
    ensures NonEmpty(pieces) == (if pieces[0] == "" then {} else {pieces[0]}) + NonEmpty(pieces[1..])
  {
    assert pieces == [pieces[0]] + pieces[1..];
  }

  /** An argument Java would reject through `== null || isEmpty()`. */
  predicate Present(s: Option<string>) {
    s.Some? && s.value != ""
  }

  /** `addValue(attributeName, value)`: a null or empty name or value leaves
      the table alone; otherwise the attribute's entry is created (even when
      no piece survives) and each non-empty piece of the value is counted
      once per occurrence. */
  function AddValue(t: Table, name: Option<string>, value: Option<string>): (r: Table)
    ensures !Present(name) || !Present(value) ==> r == t
    ensures Present(name) && Present(value) ==>
      && r.Keys == t.Keys + {name.value}
      && (forall b :: b in t && b != name.value ==> r[b] == t[b])
      && r[name.value].Keys == GetStats(t, name.value).Keys + NonEmpty(Split(value.value))
      && (forall v :: v != "" ==>
            Count(r, name.value, v) == Count(t, name.value, v) + multiset(Split(value.value))[v])
    ensures forall b :: Count(r, b, "") == Count(t, b, "")
    ensures Positive(t) ==> Positive(r)
  {
    if !Present(name) || !Present(value) then t
    else
      var a := name.value;
      AddPiecesAt(t, a, Split(value.value));
      t[a := AddPieces(GetStats(t, a), Split(value.value))]
  }

  /** Storing the counted pieces back under `a`. */
  lemma AddPiecesAt(t: Table, a: string, pieces: seq<string>)
    ensures var r := t[a := AddPieces(GetStats(t, a), pieces)];
      && r.Keys == t.Keys + {a}
      && (forall b :: b in t && b != a ==> r[b] == t[b])
      && r[a].Keys == GetStats(t, a).Keys + NonEmpty(pieces)
      && (forall v :: v != "" ==> Count(r, a, v) == Count(t, a, v) + multiset(pieces)[v])
      && (forall b :: Count(r, b, "") == Count(t, b, ""))
      && (Positive(t) ==> Positive(r))
  {
    var m := AddPieces(GetStats(t, a), pieces);
    var r := t[a := m];
    assert CountIn(m, "") == CountIn(GetStats(t, a), "");
    forall v | v != ""
      ensures Count(r, a, v) == Count(t, a, v) + multiset(pieces)[v]
    {
      assert CountIn(m, v) == CountIn(GetStats(t, a), v) + multiset(pieces)[v];
    }
    assert r.Keys == t.Keys + {a};
    if Positive(t) {
      assert PositiveCounts(GetStats(t, a));
      assert PositiveCounts(m);
    }
  }

  /** The documented example: `"Romance, Satire"` counts one `Romance` and
      one `Satire` under the attribute. */
  lemma AddValueGenreList(t: Table, value: string, romance: string, satire: string)
    requires value == "Romance, Satire" && romance == "Romance" && satire == "Satire"
    ensures Count(AddValue(t, Some("genre"), Some(value)), "genre", romance) == Count(t, "genre", romance) + 1
    ensures Count(AddValue(t, Some("genre"), Some(value)), "genre", satire) == Count(t, "genre", satire) + 1
  {
    SplitGenreList(value);
    assert romance != satire && romance != "" && satire != "";
    assert multiset([romance, satire])[romance] == 1 && multiset([romance, satire])[satire] == 1 by {
      assert [romance, satire] == [romance] + [satire];
    }
  }

  /** Pointwise sum of two value -> count maps. */
  function MergeCounts(m: Counts, n: Counts): (r: Counts)
    ensures r.Keys == m.Keys + n.Keys
    ensures forall v :: CountIn(r, v) == CountIn(m, v) + CountIn(n, v)
  {
    map v | v in m.Keys + n.Keys :: CountIn(m, v) + CountIn(n, v)
  }

  /** `merge(other)`: every attribute of either table is present afterwards
      and every (attribute, value) count is the sum of the two, with absent
      entries read as 0. */
  function Merge(t: Table, o: Table): (r: Table)
    ensures r.Keys == t.Keys + o.Keys
    ensures forall a :: GetStats(r, a).Keys == GetStats(t, a).Keys + GetStats(o, a).Keys
    ensures forall a, v :: Count(r, a, v) == Count(t, a, v) + Count(o, a, v)
  {
    MergeTableCounts(t, o);
    MergeTable(t, o)
  }

  /** The body of `merge`: per attribute of either table, the summed counts. */
  function MergeTable(t: Table, o: Table): (r: Table)
    ensures r.Keys == t.Keys + o.Keys
    ensures forall a :: a in r ==> r[a] == MergeCounts(GetStats(t, a), GetStats(o, a))
  {
    map a | a in t.Keys + o.Keys :: MergeCounts(GetStats(t, a), GetStats(o, a))
  }

  lemma MergeTableCounts(t: Table, o: Table)
    ensures forall a :: GetStats(MergeTable(t, o), a).Keys == GetStats(t, a).Keys + GetStats(o, a).Keys
    ensures forall a, v :: Count(MergeTable(t, o), a, v) == Count(t, a, v) + Count(o, a, v)
  {
    var r := MergeTable(t, o);
    forall a, v
      ensures Count(r, a, v) == Count(t, a, v) + Count(o, a, v)
    {
      if a in r {
        assert CountIn(r[a], v) == CountIn(GetStats(t, a), v) + CountIn(GetStats(o, a), v);
      }
    }
  }

  /** Merging keeps every stored count positive. */
  lemma MergePositive(t: Table, o: Table)
    requires Positive(t) && Positive(o)
    ensures Positive(Merge(t, o))
  {
    var r := Merge(t, o);
    forall a, v | a in r && v in r[a]
      ensures r[a][v] >= 1
    {
      assert r[a][v] == Count(r, a, v) == Count(t, a, v) + Count(o, a, v);
    }
  }

  /** `merge(null)` returns at once. */
  function MergeNullable(t: Table, other: Option<Table>): (r: Table)
    ensures other.None? ==> r == t
    ensures other.Some? ==> r == Merge(t, other.value)
  {
    match other
    case None => t
    case Some(o) => Merge(t, o)
  }

  /** Two tables with the same attributes, the same values per attribute and
      the same counts are the same table. */
  lemma TableExtensionality(t: Table, u: Table)
    requires t.Keys == u.Keys
    requires forall a :: GetStats(t, a).Keys == GetStats(u, a).Keys
    requires forall a, v :: Count(t, a, v) == Count(u, a, v)
    ensures t == u
  {
    forall a | a in t
      ensures t[a] == u[a]
    {
      assert GetStats(t, a).Keys == GetStats(u, a).Keys;
      forall v | v in t[a]
        ensures t[a][v] == u[a][v]
      {
        assert Count(t, a, v) == Count(u, a, v);
      }
    }
  }

  lemma MergeEmptyRight(t: Table)
    ensures Merge(t, Empty) == t
  {
    TableExtensionality(Merge(t, Empty), t);
  }

  lemma MergeEmptyLeft(t: Table)
    ensures Merge(Empty, t) == t
  {
    TableExtensionality(Merge(Empty, t), t);
  }

  lemma MergeCommutative(t: Table, u: Table)
    ensures Merge(t, u) == Merge(u, t)
  {
    TableExtensionality(Merge(t, u), Merge(u, t));
  }

  lemma MergeAssociativeValues(t: Table, u: Table, w: Table)
    ensures forall a :: GetStats(Merge(Merge(t, u), w), a).Keys == GetStats(Merge(t, Merge(u, w)), a).Keys
  {
  }

  lemma MergeAssociativeCounts(t: Table, u: Table, w: Table)
    ensures forall a, v :: Count(Merge(Merge(t, u), w), a, v) == Count(Merge(t, Merge(u, w)), a, v)
  {
    var tu, uw := Merge(t, u), Merge(u, w);
    forall a, v
      ensures Count(Merge(tu, w), a, v) == Count(Merge(t, uw), a, v)
    {
      assert Count(Merge(tu, w), a, v) == Count(tu, a, v) + Count(w, a, v);
      assert Count(Merge(t, uw), a, v) == Count(t, a, v) + Count(uw, a, v);
    }
  }

  lemma MergeAssociative(t: Table, u: Table, w: Table)
    ensures Merge(Merge(t, u), w) == Merge(t, Merge(u, w))
  {
    MergeAssociativeValues(t, u, w);
    MergeAssociativeCounts(t, u, w);
    TableExtensionality(Merge(Merge(t, u), w), Merge(t, Merge(u, w)));
  }

  lemma MergeCountsAddOne(m: Counts, n: Counts, v: string, c: nat)
    requires v !in n
    ensures MergeCounts(m, n)[v := CountIn(MergeCounts(m, n), v) + c] == MergeCounts(m, n[v := c])
  {
    var l, r := MergeCounts(m, n)[v := CountIn(MergeCounts(m, n), v) + c], MergeCounts(m, n[v := c]);
    assert l.Keys == r.Keys;
    forall w | w in l
      ensures l[w] == r[w]
    {
      assert CountIn(r, w) == CountIn(m, w) + CountIn(n[v := c], w);
    }
  }

  /** One round of the outer loop of `merge`: fold the counts `n` into the
      attribute `a` of `t`. */
  function MergeAttribute(t: Table, a: string, n: Counts): Table {
    t[a := MergeCounts(GetStats(t, a), n)]
  }

  lemma MergeAddAttributeValues(t: Table, p: Table, a: string, n: Counts)
    requires a !in p
    ensures forall b :: GetStats(MergeAttribute(Merge(t, p), a, n), b).Keys == GetStats(Merge(t, p[a := n]), b).Keys
  {
    forall b
      ensures GetStats(MergeAttribute(Merge(t, p), a, n), b).Keys == GetStats(Merge(t, p[a := n]), b).Keys
    {
      if b == a {
        MergeAddAttributeValuesSame(t, p, a, n);
      } else {
        MergeAddAttributeValuesOther(t, p, a, n, b);
      }
    }
  }

  lemma MergeAddAttributeValuesSame(t: Table, p: Table, a: string, n: Counts)
    requires a !in p
    ensures GetStats(MergeAttribute(Merge(t, p), a, n), a).Keys == GetStats(Merge(t, p[a := n]), a).Keys
  {
    var m, q := Merge(t, p), p[a := n];
    var tk := GetStats(t, a).Keys;
    assert GetStats(MergeAttribute(m, a, n), a).Keys == GetStats(m, a).Keys + n.Keys;
    assert GetStats(p, a).Keys == {};
    assert GetStats(m, a).Keys == tk;
    assert GetStats(q, a).Keys == n.Keys;
    assert GetStats(Merge(t, q), a).Keys == tk + n.Keys;
  }

  lemma MergeAddAttributeValuesOther(t: Table, p: Table, a: string, n: Counts, b: string)
    requires a !in p && b != a
    ensures GetStats(MergeAttribute(Merge(t, p), a, n), b).Keys == GetStats(Merge(t, p[a := n]), b).Keys
  {
    assert GetStats(MergeAttribute(Merge(t, p), a, n), b) == GetStats(Merge(t, p), b);
    assert GetStats(p[a := n], b) == GetStats(p, b);
  }

  lemma MergeAddAttributeCountSame(t: Table, p: Table, a: string, n: Counts, v: string)
    requires a !in p
    ensures Count(MergeAttribute(Merge(t, p), a, n), a, v) == Count(Merge(t, p[a := n]), a, v)
  {
    var m := Merge(t, p);
    assert Count(MergeAttribute(m, a, n), a, v) == CountIn(GetStats(m, a), v) + CountIn(n, v);
    assert Count(m, a, v) == Count(t, a, v) + Count(p, a, v);
    assert Count(Merge(t, p[a := n]), a, v) == Count(t, a, v) + Count(p[a := n], a, v);
    assert Count(p[a := n], a, v) == CountIn(n, v);
  }

  lemma MergeAddAttributeCountOther(t: Table, p: Table, a: string, n: Counts, b: string, v: string)
    requires a !in p && b != a
    ensures Count(MergeAttribute(Merge(t, p), a, n), b, v) == Count(Merge(t, p[a := n]), b, v)
  {
    var m := Merge(t, p);
    assert Count(MergeAttribute(m, a, n), b, v) == Count(m, b, v);
    assert Count(m, b, v) == Count(t, b, v) + Count(p, b, v);
    assert Count(Merge(t, p[a := n]), b, v) == Count(t, b, v) + Count(p[a := n], b, v);
    assert Count(p[a := n], b, v) == Count(p, b, v);
  }

  lemma MergeAddAttributeCounts(t: Table, p: Table, a: string, n: Counts)
    requires a !in p
    ensures forall b, v :: Count(MergeAttribute(Merge(t, p), a, n), b, v) == Count(Merge(t, p[a := n]), b, v)
  {
    forall b, v
      ensures Count(MergeAttribute(Merge(t, p), a, n), b, v) == Count(Merge(t, p[a := n]), b, v)
    {
      if b == a {
        MergeAddAttributeCountSame(t, p, a, n, v);
      } else {
        MergeAddAttributeCountOther(t, p, a, n, b, v);
      }
    }
  }

  /** Folding one more attribute of the other table into a partial merge. */
  lemma MergeAddAttribute(t: Table, p: Table, a: string, n: Counts)
    requires a !in p
    ensures MergeAttribute(Merge(t, p), a, n) == Merge(t, p[a := n])
  {
    MergeAddAttributeValues(t, p, a, n);
    MergeAddAttributeCounts(t, p, a, n);
    TableExtensionality(MergeAttribute(Merge(t, p), a, n), Merge(t, p[a := n]));
  }

  lemma RestoreKey<K, V>(m: map<K, V>, removed: set<K>, k: K)
    requires k in removed && k in m
    ensures (m - removed)[k := m[k]] == m - (removed - {k})
  {
  }

  /** The inner loop of `merge(other)`: create each value of `values` at 0
      in `target` if needed and add its count. */
  method AddCountsInto(target: Counts, values: Counts) returns (r: Counts)
    ensures r == MergeCounts(target, values)
  {
    r := target;
    var pending := values.Keys;
    assert values - pending == map[];
    while pending != {}
      invariant pending <= values.Keys
      invariant r == MergeCounts(target, values - pending)
      decreases pending
    {
      var v :| v in pending;
      MergeCountsAddOne(target, values - pending, v, values[v]);
      RestoreKey(values, pending, v);
      r := r[v := CountIn(r, v) + values[v]];
      pending := pending - {v};
    }
    assert values - pending == values;
  }

  /** The outer loop of `merge(other)`: for each attribute of `other`, get
      or create the target map and add the attribute's counts into it. */
  method MergeInto(t: Table, o: Table) returns (r: Table)
    ensures r == Merge(t, o)
  {
    assert o - o.Keys == Empty;
    MergeEmptyRight(t);
    r := t;
    var todo := o.Keys;
    while todo != {}
      invariant todo <= o.Keys
      invariant r == Merge(t, o - todo)
      decreases todo
    {
      var a :| a in todo;
      var target := AddCountsInto(GetStats(r, a), o[a]);
      MergeAddAttribute(t, o - todo, a, o[a]);
      RestoreKey(o, todo, a);
      r := r[a := target];
      todo := todo - {a};
    }
    assert o - todo == o;
  }

  /** The collection loop of `readAllJsonFiles`: starting from `acc`, merge
      each local table in turn. */
  function MergeAllFrom(acc: Table, locals: seq<Table>): Table
    decreases |locals|
  {
    if locals == [] then acc else MergeAllFrom(Merge(acc, locals[0]), locals[1..])
  }

  /** The aggregate of a list of local tables, starting from an empty one. */
  function MergeAll(locals: seq<Table>): Table {
    MergeAllFrom(Empty, locals)
  }

  /** Sum of one (attribute, value) count over a list of tables. */
  function SumCount(locals: seq<Table>, a: string, v: string): nat
    decreases |locals|
  {
    if locals == [] then 0 else Count(locals[0], a, v) + SumCount(locals[1..], a, v)
  }

  /** A value no table of the list counts has sum zero. */
  lemma {:induction false} SumCountZero(locals: seq<Table>, a: string, v: string)
    requires forall i :: 0 <= i < |locals| ==> Count(locals[i], a, v) == 0
    ensures SumCount(locals, a, v) == 0
    decreases |locals|
  {
    if locals != [] {
      assert Count(locals[0], a, v) == 0;
      SumCountZero(locals[1..], a, v);
    }
  }

  /** Attributes that occur in some table of the list. */
  function AllAttributes(locals: seq<Table>): set<string>
    decreases |locals|
  {
    if locals == [] then {} else locals[0].Keys + AllAttributes(locals[1..])
  }

  /** Folding from an accumulator is merging the accumulator with the fold
      from empty. */
  lemma {:induction false} MergeAllFromAccumulator(acc: Table, locals: seq<Table>)
    ensures MergeAllFrom(acc, locals) == Merge(acc, MergeAll(locals))
    decreases |locals|
  {
    if locals == [] {
      MergeEmptyRight(acc);
    } else {
      var x, rest := locals[0], locals[1..];
      MergeAllFromAccumulator(Merge(acc, x), rest);
      MergeAllFromAccumulator(Merge(Empty, x), rest);
      MergeEmptyLeft(x);
      MergeAssociative(acc, x, MergeAll(rest));
    }
  }

  lemma MergeAllCons(x: Table, rest: seq<Table>)
    ensures MergeAll([x] + rest) == Merge(x, MergeAll(rest))
  {
    var s := [x] + rest;
    assert s[0] == x && s[1..] == rest;
    MergeAllFromAccumulator(Merge(Empty, x), rest);
    MergeEmptyLeft(x);
  }

  /** Grouping does not matter: aggregating a concatenation is merging the
      aggregates of the two parts. */
  lemma {:induction false} MergeAllAppend(a: seq<Table>, b: seq<Table>)
    ensures MergeAll(a + b) == Merge(MergeAll(a), MergeAll(b))
    decreases |a|
  {
    if a == [] {
      assert a + b == b;
      MergeEmptyLeft(MergeAll(b));
    } else {
      var x, rest := a[0], a[1..];
      assert a == [x] + rest;
      assert a + b == [x] + (rest + b);
      MergeAllCons(x, rest + b);
      MergeAllAppend(rest, b);
      MergeAllCons(x, rest);
      MergeAssociative(x, MergeAll(rest), MergeAll(b));
    }
  }

  lemma MergeAllSingleton(x: Table)
    ensures MergeAll([x]) == x
  {
    assert [x] + [] == [x];
    MergeAllCons(x, []);
    MergeEmptyRight(x);
  }

  /** Merging `x` into a merge can be done first. */
  lemma MergeSwapFront(b: Table, x: Table, a: Table)
    ensures Merge(Merge(b, x), a) == Merge(x, Merge(b, a))
  {
    MergeCommutative(b, x);
    MergeAssociative(x, b, a);
  }

  /** Pulling one table out of the middle of the list. */
  lemma MergeAllMiddle(before: seq<Table>, x: Table, after: seq<Table>)
    ensures MergeAll(before + [x] + after) == Merge(x, MergeAll(before + after))
  {
    var b, a := MergeAll(before), MergeAll(after);
    calc {
      MergeAll(before + [x] + after);
      { MergeAllAppend(before + [x], after); }
      Merge(MergeAll(before + [x]), a);
      { MergeAllAppend(before, [x]); MergeAllSingleton(x); }
      Merge(Merge(b, x), a);
      { MergeSwapFront(b, x, a); }
      Merge(x, Merge(b, a));
      { MergeAllAppend(before, after); }
      Merge(x, MergeAll(before + after));
    }
  }

  lemma MultisetRemoveAt<T>(s: seq<T>, p: seq<T>, j: nat)
    requires |s| > 0 && multiset(s) == multiset(p)
    requires j < |p| && p[j] == s[0]
    ensures multiset(s[1..]) == multiset(p[..j] + p[j + 1..])
  {
    var x, before, after := s[0], p[..j], p[j + 1..];
    assert s == [x] + s[1..];
    assert p == before + [x] + after;
    assert multiset(s) == multiset{x} + multiset(s[1..]);
    assert multiset(p) == multiset(before) + multiset{x} + multiset(after);
    assert multiset(before + after) == multiset(before) + multiset(after);
    assert multiset(s[1..]) == multiset(s) - multiset{x};
    assert multiset(before + after) == multiset(p) - multiset{x};
  }

  /** Order does not matter: any reordering of the local tables gives the
      same aggregate. */
  lemma {:induction false} MergeAllPermutation(s: seq<Table>, p: seq<Table>)
    requires multiset(s) == multiset(p)
    ensures MergeAll(s) == MergeAll(p)
    decreases |s|
  {
    if s == [] {
      assert |p| == |multiset(p)| == 0;
    } else {
      var x, rest := s[0], s[1..];
      assert s == [x] + rest;
      assert x in multiset(p);
      var j :| 0 <= j < |p| && p[j] == x;
      var before, after := p[..j], p[j + 1..];
      assert p == before + [x] + after;
      MultisetRemoveAt(s, p, j);
      MergeAllPermutation(rest, before + after);
      MergeAllCons(x, rest);
      MergeAllMiddle(before, x, after);
    }
  }

  /** Each count of the aggregate is the sum of that count over the local
      tables, and its attributes are those of the local tables. */
  lemma {:induction false} MergeAllCounts(locals: seq<Table>)
    ensures MergeAll(locals).Keys == AllAttributes(locals)
    ensures forall a, v :: Count(MergeAll(locals), a, v) == SumCount(locals, a, v)
    decreases |locals|
  {
    if locals != [] {
      MergeAllCounts(locals[1..]);
      MergeAllCons(locals[0], locals[1..]);
      assert locals == [locals[0]] + locals[1..];
    }
  }

  /** Aggregating positive tables keeps every count positive. */
  lemma {:induction false} MergeAllPositive(locals: seq<Table>)
    requires forall i :: 0 <= i < |locals| ==> Positive(locals[i])
    ensures Positive(MergeAll(locals))
    decreases |locals|
  {
    if locals != [] {
      MergeAllPositive(locals[1..]);
      MergeAllCons(locals[0], locals[1..]);
      MergePositive(locals[0], MergeAll(locals[1..]));
      assert locals == [locals[0]] + locals[1..];
    }
  }
}
