/** The report ordering of `XmlStatistic`: which attributes get a report,
    the order of one attribute's entries, the report file name and the
    text of each item. Writing the XML document itself is not modelled. */
module XmlStatistic {
  import opened Results
  import opened Decimal
  import opened Statistics

  /** One `Map.Entry<String, Integer>` of an attribute's value map. */
  datatype Entry = Entry(value: string, count: nat)

  /** One `<item>` element: the value text and the count as decimal text. */
  datatype Item = Item(value: string, count: string)

  /** What `writeXml` receives: the attribute, the sorted entries, the file
      name, together with the items it writes in that order. */
  datatype Report = Report(attribute: string, fileName: string, sorted: seq<Entry>, items: seq<Item>)

  /** Counts never increase along the list. */
  predicate NonIncreasing(es: seq<Entry>) {
    forall i, j :: 0 <= i < j < |es| ==> es[i].count >= es[j].count
  }

  /** `es` lists every entry of `m` exactly once, and nothing else. */
  predicate IsEntryListOf(es: seq<Entry>, m: Counts) {
    && (forall i :: 0 <= i < |es| ==> es[i].value in m && es[i].count == m[es[i].value])
    && (forall i, j :: 0 <= i < j < |es| ==> es[i].value != es[j].value)
    && (forall v :: v in m ==> Entry(v, m[v]) in es)
  }

  // ---------------------------------------------------------------------
  // Sorting by count, descending

  /** Places `e` in front of the first entry whose count it reaches, so an
      entry never overtakes an equal one that came before it. */
  function InsertDesc(e: Entry, es: seq<Entry>): (r: seq<Entry>)
    requires NonIncreasing(es)
    ensures NonIncreasing(r)
    ensures multiset(r) == multiset(es) + multiset{e}
    ensures |r| == |es| + 1
    ensures r[0] == e || (es != [] && r[0] == es[0])
    decreases |es|
  {
    if es == [] || e.count >= es[0].count then
      ConsNonIncreasing(e, es);
      [e] + es
    else
      var rest := InsertDesc(e, es[1..]);
      EntriesCons(es);
      assert rest[0] == e || (es[1..] != [] && rest[0] == es[1]);
      ConsNonIncreasing(es[0], rest);
      [es[0]] + rest
  }

  lemma EntriesCons(es: seq<Entry>)
    requires es != []
    ensures multiset(es) == multiset{es[0]} + multiset(es[1..])
    ensures NonIncreasing(es) ==> NonIncreasing(es[1..])
  {
    assert es == [es[0]] + es[1..];
  }

  /** An entry that heads a descending list keeps it descending. */
  lemma ConsNonIncreasing(x: Entry, es: seq<Entry>)
    requires NonIncreasing(es)
    requires es == [] || x.count >= es[0].count
    ensures NonIncreasing([x] + es)
  {
    var r := [x] + es;
    forall i, j | 0 <= i < j < |r|
      ensures r[i].count >= r[j].count
    {
      if i == 0 && j > 1 {
        assert es[0].count >= es[j - 1].count;
      }
    }
  }

  /** `sorted.sort((a, b) -> b.getValue().compareTo(a.getValue()))`: a
      stable sort by count, largest first. */
  function SortDesc(es: seq<Entry>): (r: seq<Entry>)
    ensures NonIncreasing(r)
    ensures multiset(r) == multiset(es)
    ensures |r| == |es|
    decreases |es|
  {
    if es == [] then []
    else
      EntriesCons(es);
      InsertDesc(es[0], SortDesc(es[1..]))
  }

  /** A list already in descending order is left as it is. */
  lemma {:induction false} SortDescIdempotent(es: seq<Entry>)
    requires NonIncreasing(es)
    ensures SortDesc(es) == es
    decreases |es|
  {
    if es != [] {
      SortDescIdempotent(es[1..]);
      assert SortDesc(es[1..]) == es[1..];
    }
  }

  /** Sorting twice is sorting once. */
  lemma SortDescTwice(es: seq<Entry>)
    ensures SortDesc(SortDesc(es)) == SortDesc(es)
  {
    SortDescIdempotent(SortDesc(es));
  }

  /** Being an entry list of `m` depends only on the multiset of entries,
      so a permutation of an entry list is one too. */
  lemma EntryListPermutation(es: seq<Entry>, fs: seq<Entry>, m: Counts)
    requires IsEntryListOf(es, m)
    requires multiset(fs) == multiset(es)
    ensures IsEntryListOf(fs, m)
  {
    forall i | 0 <= i < |fs|
      ensures fs[i].value in m && fs[i].count == m[fs[i].value]
    {
      assert fs[i] in multiset(es);
    }
    forall i, j | 0 <= i < j < |fs|
      ensures fs[i].value != fs[j].value
    {
      if fs[i].value == fs[j].value {
        assert fs[i] in multiset(es) && fs[j] in multiset(es);
        assert fs[i] == fs[j];
        TwiceInMultiset(fs, i, j);
        assert multiset(es)[fs[i]] >= 2;
        var k :| 0 <= k < |es| && es[k] == fs[i];
        OnceInEntryList(es, m, k);
        assert false;
      }
    }
    forall v | v in m
      ensures Entry(v, m[v]) in fs
    {
      assert Entry(v, m[v]) in multiset(es);
    }
  }

  /** An element at two positions occurs at least twice. */
  lemma TwiceInMultiset(fs: seq<Entry>, i: nat, j: nat)
    requires i < j < |fs| && fs[i] == fs[j]
    ensures multiset(fs)[fs[i]] >= 2
  {
    assert fs == fs[..i] + [fs[i]] + fs[i + 1..j] + [fs[j]] + fs[j + 1..];
  }

  /** In an entry list every entry occurs once. */
  lemma OnceInEntryList(es: seq<Entry>, m: Counts, k: nat)
    requires IsEntryListOf(es, m)
    requires k < |es|
    ensures multiset(es)[es[k]] == 1
  {
    var e := es[k];
    assert es == es[..k] + [e] + es[k + 1..];
    forall i | 0 <= i < |es[..k]|
      ensures es[..k][i] != e
    {
      assert es[i] == es[..k][i];
    }
    var tail := es[k + 1..];
    forall i | 0 <= i < |tail|
      ensures tail[i] != e
    {
      assert tail[i] == es[k + 1 + i];
    }
    assert e !in es[..k] && e !in tail;
    assert multiset(es[..k])[e] == 0 && multiset(tail)[e] == 0;
  }

  // ---------------------------------------------------------------------
  // Entries, items and file names

  /** `new ArrayList<>(values.entrySet())`: the entries of `m` in some
      order; the order of a `HashMap` is not specified, so any is taken. */
  method EntriesOf(m: Counts) returns (es: seq<Entry>)
    ensures IsEntryListOf(es, m)
  {
    es := [];
    var remaining := m.Keys;
    while remaining != {}
      invariant remaining <= m.Keys
      invariant forall i :: 0 <= i < |es| ==> es[i].value in m && es[i].value !in remaining && es[i].count == m[es[i].value]
      invariant forall i, j :: 0 <= i < j < |es| ==> es[i].value != es[j].value
      invariant forall v :: v in m && v !in remaining ==> Entry(v, m[v]) in es
      decreases remaining
    {
      var v :| v in remaining;
      es := es + [Entry(v, m[v])];
      remaining := remaining - {v};
    }
  }

  /** The `<item>` elements written for the sorted entries, count rendered
      by `String.valueOf`. */
  function ItemsOf(sorted: seq<Entry>): (items: seq<Item>)
    ensures |items| == |sorted|
    ensures forall i :: 0 <= i < |sorted| ==> items[i].value == sorted[i].value && AllDigits(items[i].count)
    decreases |sorted|
  {
    if sorted == [] then []
    else [Item(sorted[0].value, NatToDecimal(sorted[0].count))] + ItemsOf(sorted[1..])
  }

  /** Reading the items back gives the sorted entries. */
  function EntriesOfItems(items: seq<Item>): (es: seq<Entry>)
    requires forall i :: 0 <= i < |items| ==> AllDigits(items[i].count)
    ensures |es| == |items|
    decreases |items|
  {
    if items == [] then []
    else [Entry(items[0].value, ParseDigits(items[0].count))] + EntriesOfItems(items[1..])
  }

  lemma {:induction false} ItemsRoundTrip(sorted: seq<Entry>)
    ensures EntriesOfItems(ItemsOf(sorted)) == sorted
    decreases |sorted|
  {
    if sorted != [] {
      ItemsRoundTrip(sorted[1..]);
      ParseNatToDecimal(sorted[0].count);
      assert ItemsOf(sorted)[1..] == ItemsOf(sorted[1..]);
    }
  }

  const Prefix := "/statistics_by_"
  const Suffix := ".xml"

  /** `outputFolder + "/statistics_by_" + attributeName + ".xml"`. */
  function ReportFileName(folder: string, attribute: string): (name: string)
    ensures |name| == |folder| + |Prefix| + |attribute| + |Suffix|
    ensures name[..|folder|] == folder
    ensures name[|folder|..|folder| + |Prefix|] == Prefix
    ensures name[|name| - |Suffix|..] == Suffix
  {
    folder + Prefix + attribute + Suffix
  }

  /** The attribute a report file name was built from, given the folder. */
  function AttributeOfFileName(folder: string, name: string): (attribute: string)
    requires |name| >= |folder| + |Prefix| + |Suffix|
  {
    name[|folder| + |Prefix|..|name| - |Suffix|]
  }

  lemma FileNameRoundTrip(folder: string, attribute: string)
    ensures AttributeOfFileName(folder, ReportFileName(folder, attribute)) == attribute
  {
    var name := ReportFileName(folder, attribute);
    assert name == (folder + Prefix) + attribute + Suffix;
  }

  /** Two attributes reported into one folder never share a file. */
  lemma FileNameInjective(folder: string, a: string, b: string)
    ensures ReportFileName(folder, a) == ReportFileName(folder, b) ==> a == b
  {
    FileNameRoundTrip(folder, a);
    FileNameRoundTrip(folder, b);
  }

  // ---------------------------------------------------------------------
  // Reports

  /** What a report for `attribute` of `t` in `folder` is. */
  predicate ValidReport(t: Table, folder: string, rep: Report) {
    && rep.fileName == ReportFileName(folder, rep.attribute)
    && NonIncreasing(rep.sorted)
    && IsEntryListOf(rep.sorted, GetStats(t, rep.attribute))
    && rep.items == ItemsOf(rep.sorted)
  }

  /** `generateSingleXmlFile`: no report for an attribute without values;
      otherwise its entries sorted by count, largest first. */
  method GenerateSingleXmlFile(t: Table, attribute: string, folder: string) returns (r: Option<Report>)
    ensures r.None? <==> GetStats(t, attribute) == map[]
    ensures r.Some? ==> r.value.attribute == attribute && ValidReport(t, folder, r.value)
  {
    var values := GetStats(t, attribute);
    if values == map[] {
      return None;
    }
    var entries := EntriesOf(values);
    var sorted := SortDesc(entries);
    EntryListPermutation(entries, sorted, values);
    r := Some(Report(attribute, ReportFileName(folder, attribute), sorted, ItemsOf(sorted)));
  }

  /** The attributes of `t` that have at least one value. */
  function Reportable(t: Table): (attrs: set<string>)
    ensures attrs <= t.Keys
  {
    set a | a in t && GetStats(t, a) != map[]
  }

  /** The attributes the reports are about. */
  function AttributesOf(reports: seq<Report>): (attrs: set<string>)
    ensures forall i :: 0 <= i < |reports| ==> reports[i].attribute in attrs
    ensures forall a :: a in attrs ==> exists i :: 0 <= i < |reports| && reports[i].attribute == a
    decreases |reports|
  {
    if reports == [] then {}
    else
      var init := reports[..|reports| - 1];
      assert forall i :: 0 <= i < |init| ==> init[i] == reports[i];
      AttributesOf(init) + {reports[|reports| - 1].attribute}
  }

  lemma AttributesOfAppend(reports: seq<Report>, r: Report)
    ensures AttributesOf(reports + [r]) == AttributesOf(reports) + {r.attribute}
  {
    assert (reports + [r])[..|reports|] == reports;
  }

  /** No attribute is reported twice. */
  predicate DistinctAttributes(reports: seq<Report>) {
    forall i, j :: 0 <= i < j < |reports| ==> reports[i].attribute != reports[j].attribute
  }

  lemma DistinctAttributesAppend(reports: seq<Report>, r: Report)
    requires DistinctAttributes(reports)
    requires forall i :: 0 <= i < |reports| ==> reports[i].attribute != r.attribute
    ensures DistinctAttributes(reports + [r])
  {
  }

  /** Every report is a valid report of `t` in `folder`. */
  predicate AllValid(t: Table, folder: string, reports: seq<Report>) {
    forall i :: 0 <= i < |reports| ==> ValidReport(t, folder, reports[i])
  }

  lemma AllValidAppend(t: Table, folder: string, reports: seq<Report>, r: Report)
    requires AllValid(t, folder, reports) && ValidReport(t, folder, r)
    ensures AllValid(t, folder, reports + [r])
  {
  }

  /** `generateAllXmlFiles`: one attempt per attribute of `getAllStats()`,
      in the map's (unspecified) order. */
  method GenerateAllXmlFiles(t: Table, folder: string) returns (reports: seq<Report>)
    ensures AttributesOf(reports) == Reportable(t)
    ensures forall a :: a in t && t[a] != map[] <==>
      exists i :: 0 <= i < |reports| && reports[i].attribute == a
    ensures DistinctAttributes(reports)
    ensures AllValid(t, folder, reports)
  {
    var all := GetAllStats(t);
    reports := [];
    var remaining := all.Keys;
    while remaining != {}
      invariant remaining <= t.Keys
      invariant AttributesOf(reports) == Reportable(t) - remaining
      invariant forall i :: 0 <= i < |reports| ==> reports[i].attribute !in remaining
      invariant DistinctAttributes(reports)
      invariant AllValid(t, folder, reports)
      decreases remaining
    {
      var a :| a in remaining;
      var r := GenerateSingleXmlFile(t, a, folder);
      if r.Some? {
        AttributesOfAppend(reports, r.value);
        DistinctAttributesAppend(reports, r.value);
        AllValidAppend(t, folder, reports, r.value);
        reports := reports + [r.value];
      }
      remaining := remaining - {a};
    }
    ReportedExactly(t, reports);
  }

  /** Reports whose attributes are the reportable ones cover exactly the
      attributes with at least one value. */
  lemma ReportedExactly(t: Table, reports: seq<Report>)
    requires AttributesOf(reports) == Reportable(t)
    ensures forall a :: a in t && t[a] != map[] <==>
      exists i :: 0 <= i < |reports| && reports[i].attribute == a
  {
    forall a
      ensures a in t && t[a] != map[] <==> a in AttributesOf(reports)
    {
      if a in t {
        assert GetStats(t, a).Keys == t[a].Keys;
      }
    }
  }
}
