/** The blood-count page (`pages/02_Haematologie.py`): two manual counts per
    cell type kept as counters in the session, four sections of select boxes
    that must all hold a value, the record that is stored, the Word sections
    it is exported to, and the export and image file names. */
module Haematologie {
  import opened Wrappers
  import opened Text
  import opened Store

  const Zelltypen: seq<string> := [
    "Blasten", "Promyelozyten", "Myelozyten", "Metamyelozyten",
    "Stabkernige Granulozyten", "Segmentkernige Granulozyten",
    "Eosinophile", "Basophile", "Monozyten", "Lymphozyten", "Plasmazellen",
    "Erythroblasten", "Unbekannt / Diverses"
  ]

  const RbFelder: seq<string> := [
    "Anisozytose", "Mikrozyten", "Makrozyten", "Anisochromasie",
    "Hypochrom", "Hyperchrom", "Polychromasie", "Poikilozytose",
    "Ovalozyten", "Akanthozyten", "Sph\U{E4}rozyten", "Stomatozyten",
    "Echinozyten", "Targetzellen", "Tr\U{E4}nenformen", "Sichelzellen",
    "Fragmentozyten", "Baso. Punktierung", "Howell Jollies", "Pappenheim"
  ]

  const GbFelder: seq<string> := [
    "vergr\U{F6}berte Granula", "basophile Schlieren",
    "Zytoplasmavakuolen", "Fehlende Granula", "Kernpyknose", "Pseudopelger",
    "Linksverschiebung", "Kerne hoch-/\U{FC}bersegmentiert"
  ]

  const LyFelder: seq<string> := [">10% LGL", "reaktiv", "pathologisch", "lymphoplasmozytoid"]

  const ThFelder: seq<string> := ["Grosse Formen", "Riesenformen", "Agranul\U{E4}r"]

  /** The choices every select box offers; the first is preselected. */
  const Options: seq<string> := ["-", "+", "++", "+++"]

  // ---------------------------------------------------------------------
  // Counters
  // ---------------------------------------------------------------------

  /** A counter held in the session: the first or the second count of a
      cell type. */
  datatype Counter = Z1(zt: string) | Z2(zt: string)

  /** The session key a counter is stored under: `f"{zt}_z1"` or
      `f"{zt}_z2"`. */
  function KeyName(c: Counter): string {
    match c
    case Z1(zt) => zt + "_z1"
    case Z2(zt) => zt + "_z2"
  }

  /** No two counters share a session key, so keying the counters by
      `Counter` instead of by their key string loses nothing. */
  lemma KeyNameInjective(a: Counter, b: Counter)
    ensures KeyName(a) == KeyName(b) ==> a == b
  {
    if KeyName(a) == KeyName(b) {
      var n := |KeyName(a)|;
      assert |a.zt| == |b.zt| == n - 3;
      assert KeyName(a)[n - 1] == KeyName(b)[n - 1];
      assert a.Z1? == b.Z1?;
      assert a.zt == KeyName(a)[..n - 3] == KeyName(b)[..n - 3] == b.zt;
    }
  }

  /** The button pressed for one counter in one run of the page. */
  datatype Button = NoPress | Minus | Plus

  /** The new counter value: minus is clamped at 0, plus adds one. */
  function Step(v: int, b: Button): (r: int)
    ensures v >= 0 ==> r >= 0
    ensures b == NoPress ==> r == v
    ensures b == Plus ==> r == v + 1
    ensures b == Minus ==> r <= v || r == 0
    ensures b == Minus && v > 0 ==> r == v - 1
  {
    match b
    case NoPress => v
    case Minus => if v - 1 > 0 then v - 1 else 0
    case Plus => v + 1
  }

  /** `if key not in st.session_state: st.session_state[key] = 0` */
  function SetDefault(counts: map<Counter, int>, key: Counter): (r: map<Counter, int>)
    ensures key in r && r.Keys == counts.Keys + {key}
    ensures forall k :: k in counts ==> r[k] == counts[k]
    ensures key !in counts ==> r[key] == 0
  {
    if key in counts then counts else counts[key := 0]
  }

  /** The counters after one row of the table: both are created at 0 when
      absent, then each receives its button. */
  function RowUpdate(counts: map<Counter, int>, zt: string, b1: Button, b2: Button): (r: map<Counter, int>)
    ensures r.Keys == counts.Keys + {Z1(zt), Z2(zt)}
    ensures r[Z1(zt)] == Step(CountOf(counts, Z1(zt)), b1)
    ensures r[Z2(zt)] == Step(CountOf(counts, Z2(zt)), b2)
    ensures forall k :: k in counts && k != Z1(zt) && k != Z2(zt) ==> r[k] == counts[k]
    ensures (forall k :: k in counts ==> counts[k] >= 0) ==> forall k :: k in r ==> r[k] >= 0
  {
    counts[Z1(zt) := Step(CountOf(counts, Z1(zt)), b1)][Z2(zt) := Step(CountOf(counts, Z2(zt)), b2)]
  }

  /** The page's steps for one row (two `setdefault`s, then the two
      buttons) give `RowUpdate`. */
  lemma RowUpdateBySteps(counts: map<Counter, int>, zt: string, b1: Button, b2: Button)
    ensures var c := SetDefault(SetDefault(counts, Z1(zt)), Z2(zt));
      var c1 := c[Z1(zt) := Step(c[Z1(zt)], b1)];
      c1[Z2(zt) := Step(c1[Z2(zt)], b2)] == RowUpdate(counts, zt, b1, b2)
  {
    var c := SetDefault(SetDefault(counts, Z1(zt)), Z2(zt));
    var c1 := c[Z1(zt) := Step(c[Z1(zt)], b1)];
    var c2 := c1[Z2(zt) := Step(c1[Z2(zt)], b2)];
    var r := RowUpdate(counts, zt, b1, b2);
    assert c[Z1(zt)] == CountOf(counts, Z1(zt)) && c[Z2(zt)] == CountOf(counts, Z2(zt));
    assert c2.Keys == r.Keys;
    forall k | k in r ensures c2[k] == r[k] {
      if k != Z1(zt) && k != Z2(zt) {
        assert c2[k] == c[k] == counts[k];
      }
    }
  }

  /** The counters after the rows of the first `|presses|` cell types of
      the table. */
  function TableUpdate(counts: map<Counter, int>, types: seq<string>, presses: seq<(Button, Button)>)
    : (r: map<Counter, int>)
    requires |presses| <= |types|
    ensures counts.Keys <= r.Keys
    ensures forall k :: 0 <= k < |presses| ==> Z1(types[k]) in r && Z2(types[k]) in r
    ensures (forall k :: k in counts ==> counts[k] >= 0) ==> forall k :: k in r ==> r[k] >= 0
  {
    if |presses| == 0 then counts
    else
      var n := |presses| - 1;
      var prev := TableUpdate(counts, types, presses[..n]);
      assert forall k :: 0 <= k < n ==> presses[..n][k] == presses[k];
      RowUpdate(prev, types[n], presses[n].0, presses[n].1)
  }

  lemma TableUpdateStep(counts: map<Counter, int>, types: seq<string>, presses: seq<(Button, Button)>, i: int)
    requires 0 <= i < |presses| <= |types|
    ensures TableUpdate(counts, types, presses[..i + 1])
      == RowUpdate(TableUpdate(counts, types, presses[..i]), types[i], presses[i].0, presses[i].1)
  {
    assert presses[..i + 1][..i] == presses[..i];
  }

  /** `key` is a counter of one of the first `n` cell types. */
  predicate CounterOf(key: Counter, types: seq<string>, n: nat)
    requires n <= |types|
  {
    exists k :: 0 <= k < n && (key == Z1(types[k]) || key == Z2(types[k]))
  }

  lemma CounterOfSnoc(key: Counter, types: seq<string>, n: nat)
    requires n < |types|
    ensures CounterOf(key, types, n + 1) <==>
      CounterOf(key, types, n) || key == Z1(types[n]) || key == Z2(types[n])
  {
    if CounterOf(key, types, n + 1) && !CounterOf(key, types, n) {
      var k :| 0 <= k < n + 1 && (key == Z1(types[k]) || key == Z2(types[k]));
      assert k == n;
    }
  }

  /** The table adds exactly the counters of the processed cell types and
      leaves every other key as it was. */
  lemma {:induction false} TableUpdateKeys(counts: map<Counter, int>, types: seq<string>, presses: seq<(Button, Button)>)
    requires |presses| <= |types|
    ensures forall key :: key in TableUpdate(counts, types, presses) <==>
      key in counts || CounterOf(key, types, |presses|)
    ensures forall key :: key in counts && !CounterOf(key, types, |presses|) ==>
      TableUpdate(counts, types, presses)[key] == counts[key]
  {
    if |presses| > 0 {
      var n := |presses| - 1;
      var prev := TableUpdate(counts, types, presses[..n]);
      TableUpdateKeys(counts, types, presses[..n]);
      var r := RowUpdate(prev, types[n], presses[n].0, presses[n].1);
      assert TableUpdate(counts, types, presses) == r;
      forall key ensures key in r <==> key in counts || CounterOf(key, types, n + 1) {
        CounterOfSnoc(key, types, n);
      }
      forall key | key in counts && !CounterOf(key, types, n + 1) ensures r[key] == counts[key] {
        CounterOfSnoc(key, types, n);
      }
    }
  }

  /** With distinct cell types, the counters of type `n` belong to no
      earlier type. */
  lemma NewTypeNotCounted(types: seq<string>, n: nat)
    requires n < |types|
    requires forall i, j :: 0 <= i < j < |types| ==> types[i] != types[j]
    ensures !CounterOf(Z1(types[n]), types, n) && !CounterOf(Z2(types[n]), types, n)
  {
    forall k | 0 <= k < n
      ensures Z1(types[n]) != Z1(types[k]) && Z1(types[n]) != Z2(types[k])
      ensures Z2(types[n]) != Z1(types[k]) && Z2(types[n]) != Z2(types[k])
    {
    }
  }

  /** Each processed cell type's counters hold their old value (0 when
      absent) after its two buttons, when the cell types are distinct. */
  lemma {:induction false} TableUpdateValues(counts: map<Counter, int>, types: seq<string>, presses: seq<(Button, Button)>)
    requires |presses| <= |types|
    requires forall i, j :: 0 <= i < j < |types| ==> types[i] != types[j]
    ensures forall k :: 0 <= k < |presses| ==>
      && TableUpdate(counts, types, presses)[Z1(types[k])] == Step(CountOf(counts, Z1(types[k])), presses[k].0)
      && TableUpdate(counts, types, presses)[Z2(types[k])] == Step(CountOf(counts, Z2(types[k])), presses[k].1)
  {
    forall k | 0 <= k < |presses| {
      TableUpdateAt(counts, types, presses, k);
    }
  }

  lemma {:induction false} TableUpdateAt(counts: map<Counter, int>, types: seq<string>, presses: seq<(Button, Button)>, k: nat)
    requires k < |presses| <= |types|
    requires forall i, j :: 0 <= i < j < |types| ==> types[i] != types[j]
    ensures TableUpdate(counts, types, presses)[Z1(types[k])] == Step(CountOf(counts, Z1(types[k])), presses[k].0)
    ensures TableUpdate(counts, types, presses)[Z2(types[k])] == Step(CountOf(counts, Z2(types[k])), presses[k].1)
  {
    var n := |presses| - 1;
    if k < n {
      TableUpdateAt(counts, types, presses[..n], k);
      LaterRowKeeps(counts, types, presses, Z1(types[k]));
      LaterRowKeeps(counts, types, presses, Z2(types[k]));
      assert presses[..n][k] == presses[k];
    } else {
      LastRowSets(counts, types, presses);
    }
  }

  /** The last row leaves every counter of another cell type as it was. */
  lemma LaterRowKeeps(counts: map<Counter, int>, types: seq<string>, presses: seq<(Button, Button)>, c: Counter)
    requires 0 < |presses| <= |types|
    requires c in TableUpdate(counts, types, presses[..|presses| - 1])
    requires c.zt != types[|presses| - 1]
    ensures TableUpdate(counts, types, presses)[c] == TableUpdate(counts, types, presses[..|presses| - 1])[c]
  {
    var n := |presses| - 1;
    var prev := TableUpdate(counts, types, presses[..n]);
    var r := RowUpdate(prev, types[n], presses[n].0, presses[n].1);
    assert r[c] == prev[c];
    assert TableUpdate(counts, types, presses)[c] == r[c];
  }

  /** The last row sets its own counters from their initial values. */
  lemma LastRowSets(counts: map<Counter, int>, types: seq<string>, presses: seq<(Button, Button)>)
    requires 0 < |presses| <= |types|
    requires forall i, j :: 0 <= i < j < |types| ==> types[i] != types[j]
    ensures var n := |presses| - 1;
      && TableUpdate(counts, types, presses)[Z1(types[n])] == Step(CountOf(counts, Z1(types[n])), presses[n].0)
      && TableUpdate(counts, types, presses)[Z2(types[n])] == Step(CountOf(counts, Z2(types[n])), presses[n].1)
  {
    var n := |presses| - 1;
    var prev := TableUpdate(counts, types, presses[..n]);
    assert TableUpdate(counts, types, presses) == RowUpdate(prev, types[n], presses[n].0, presses[n].1);
    TableUpdateKeys(counts, types, presses[..n]);
    NewTypeNotCounted(types, n);
  }

  /** The counters held in the session between runs of the page. */
  class CountForm {
    var counts: map<Counter, int>

    predicate Valid()
      reads this
    {
      forall k :: k in counts ==> counts[k] >= 0
    }

    constructor ()
      ensures counts == map[] && Valid()
    {
      counts := map[];
    }

    /** One row of the counting table: both counters are created at 0 when
        absent, then each receives its button. */
    method RunRow(zt: string, b1: Button, b2: Button)
      requires Valid()
      modifies this
      ensures counts == RowUpdate(old(counts), zt, b1, b2)
      ensures Valid()
    {
      RowUpdateBySteps(counts, zt, b1, b2);
      counts := SetDefault(counts, Z1(zt));
      counts := SetDefault(counts, Z2(zt));
        var v1 := Step(counts[Z1(zt)], b1);
      counts := counts[Z1(zt) := v1];
      var v2 := Step(counts[Z2(zt)], b2);
      counts := counts[Z2(zt) := v2];
    }

    /** One run over the counting table, with the button pressed on each
        counter (at most one in practice). Every counter exists afterwards,
        and none is negative. */
    method RunTable(presses: seq<(Button, Button)>)
      requires |presses| == |Zelltypen|
      requires Valid()
      modifies this
      ensures counts == TableUpdate(old(counts), Zelltypen, presses)
      ensures Valid()
      ensures forall zt :: zt in Zelltypen ==> Z1(zt) in counts && Z2(zt) in counts
    {
      var types := Zelltypen;
      for i := 0 to |types|
        invariant counts == TableUpdate(old(counts), types, presses[..i])
      {
        TableUpdateStep(old(counts), types, presses, i);
        RunRow(types[i], presses[i].0, presses[i].1);
      }
      assert presses[..|types|] == presses;
    }
  }

  /** `session.get(key, 0)` */
  function CountOf(counts: map<Counter, int>, key: Counter): int {
    if key in counts then counts[key] else 0
  }

  /** `(z1 + z2) / 2` as a float. */
  function Average(z1: int, z2: int): (avg: real)
    ensures 2.0 * avg == (z1 + z2) as real
    ensures z1 <= z2 ==> z1 as real <= avg <= z2 as real
    ensures z2 <= z1 ==> z2 as real <= avg <= z1 as real
  {
    (z1 + z2) as real / 2.0
  }

  // ---------------------------------------------------------------------
  // Missing select-box values
  // ---------------------------------------------------------------------

  /** `session.get(key, "")` */
  function ValueOf(values: map<string, string>, key: string): string {
    if key in values then values[key] else ""
  }

  /** The messages for one section: `section: field` for each field whose
      value is empty, in field order. */
  function MissingIn(section: string, prefix: string, fields: seq<string>, values: map<string, string>)
    : (r: seq<string>)
    ensures |r| <= |fields|
    ensures forall x :: x in r <==>
      exists i :: 0 <= i < |fields| && ValueOf(values, prefix + fields[i]) == ""
        && x == section + ": " + fields[i]
  {
    if |fields| == 0 then []
    else
      var n := |fields| - 1;
      var prev := MissingIn(section, prefix, fields[..n], values);
      assert forall i :: 0 <= i < n ==> fields[..n][i] == fields[i];
      if ValueOf(values, prefix + fields[n]) == "" then prev + [section + ": " + fields[n]] else prev
  }

  /** The messages for two runs of fields are those of the first run, then
      those of the second: with one message at most per field, this fixes
      the order and the number of the messages. */
  lemma {:induction false} MissingInAppend(section: string, prefix: string, a: seq<string>, b: seq<string>,
                                           values: map<string, string>)
    ensures MissingIn(section, prefix, a + b, values)
      == MissingIn(section, prefix, a, values) + MissingIn(section, prefix, b, values)
  {
    if |b| == 0 {
      assert a + b == a;
    } else {
      var c, f := b[..|b| - 1], b[|b| - 1];
      assert b == c + [f];
      assert a + b == (a + c) + [f];
      MissingInAppend(section, prefix, a, c, values);
      MissingInSnoc(section, prefix, a + c, f, values);
      MissingInSnoc(section, prefix, c, f, values);
    }
  }

  lemma MissingInSnoc(section: string, prefix: string, init: seq<string>, f: string, values: map<string, string>)
    ensures MissingIn(section, prefix, init + [f], values)
      == MissingIn(section, prefix, init, values)
         + (if ValueOf(values, prefix + f) == "" then [section + ": " + f] else [])
  {
    assert (init + [f])[..|init|] == init;
  }

  /** `fehlende`, section by section: red blood picture, granulocytes,
      lymphocytes, platelets. */
  function Missing(values: map<string, string>): seq<string> {
    MissingIn("Rotes Blutbild", "rb_", RbFelder, values)
    + MissingIn("Granulozyten", "gb_", GbFelder, values)
    + MissingIn("Lymphozyten", "ly_", LyFelder, values)
    + MissingIn("Thrombozyten", "th_", ThFelder, values)
  }

  /** One of the four append loops. */
  method AppendMissing(fehlende: seq<string>, section: string, prefix: string, fields: seq<string>,
                       values: map<string, string>)
    returns (r: seq<string>)
    ensures r == fehlende + MissingIn(section, prefix, fields, values)
  {
    r := fehlende;
    for i := 0 to |fields|
      invariant r == fehlende + MissingIn(section, prefix, fields[..i], values)
    {
      assert fields[..i + 1][..i] == fields[..i];
      if ValueOf(values, prefix + fields[i]) == "" {
        r := r + [section + ": " + fields[i]];
      }
    }
    assert fields[..|fields|] == fields;
  }

  method CollectMissing(values: map<string, string>) returns (fehlende: seq<string>)
    ensures fehlende == Missing(values)
  {
    fehlende := [];
    fehlende := AppendMissing(fehlende, "Rotes Blutbild", "rb_", RbFelder, values);
    fehlende := AppendMissing(fehlende, "Granulozyten", "gb_", GbFelder, values);
    fehlende := AppendMissing(fehlende, "Lymphozyten", "ly_", LyFelder, values);
    fehlende := AppendMissing(fehlende, "Thrombozyten", "th_", ThFelder, values);
  }

  /** A section whose every field has a value reports nothing; `-` is a
      value. */
  lemma {:induction false} MissingInEmpty(section: string, prefix: string, fields: seq<string>,
                                          values: map<string, string>)
    requires forall i :: 0 <= i < |fields| ==> ValueOf(values, prefix + fields[i]) != ""
    ensures MissingIn(section, prefix, fields, values) == []
  {
    if |fields| > 0 {
      var n := |fields| - 1;
      assert forall i :: 0 <= i < n ==> fields[..n][i] == fields[i];
      MissingInEmpty(section, prefix, fields[..n], values);
    }
  }

  predicate AllSelected(values: map<string, string>, prefix: string, fields: seq<string>) {
    forall i :: 0 <= i < |fields| ==> ValueOf(values, prefix + fields[i]) in Options
  }

  /** A section whose every select box holds one of its options reports
      nothing. */
  lemma SectionComplete(section: string, prefix: string, fields: seq<string>, values: map<string, string>)
    requires AllSelected(values, prefix, fields)
    ensures MissingIn(section, prefix, fields, values) == []
  {
    assert forall o :: o in Options ==> o != "";
    MissingInEmpty(section, prefix, fields, values);
  }

  /** When every select box holds one of its options nothing is missing. */
  lemma NothingMissingWhenSelected(values: map<string, string>)
    requires AllSelected(values, "rb_", RbFelder) && AllSelected(values, "gb_", GbFelder)
    requires AllSelected(values, "ly_", LyFelder) && AllSelected(values, "th_", ThFelder)
    ensures Missing(values) == []
  {
    SectionComplete("Rotes Blutbild", "rb_", RbFelder, values);
    SectionComplete("Granulozyten", "gb_", GbFelder, values);
    SectionComplete("Lymphozyten", "ly_", LyFelder, values);
    SectionComplete("Thrombozyten", "th_", ThFelder, values);
  }

  /** A section reports each of its empty fields. */
  lemma EmptyFieldReported(section: string, prefix: string, fields: seq<string>,
                           values: map<string, string>, i: int)
    requires 0 <= i < |fields| && ValueOf(values, prefix + fields[i]) == ""
    ensures section + ": " + fields[i] in MissingIn(section, prefix, fields, values)
  {
  }

  lemma FirstOfFour(a: seq<string>, b: seq<string>, c: seq<string>, d: seq<string>)
    ensures (a + b + c + d)[..|a|] == a
  {
    assert a + b + c + d == a + (b + c + d);
  }

  /** An empty red-blood-picture field is reported, and the report comes
      before every message of the later sections. */
  lemma EmptyRbFieldReported(values: map<string, string>, i: int)
    requires 0 <= i < |RbFelder| && ValueOf(values, "rb_" + RbFelder[i]) == ""
    ensures "Rotes Blutbild: " + RbFelder[i] in Missing(values)[..|MissingIn("Rotes Blutbild", "rb_", RbFelder, values)|]
  {
    EmptyFieldReported("Rotes Blutbild", "rb_", RbFelder, values, i);
    FirstOfFour(MissingIn("Rotes Blutbild", "rb_", RbFelder, values),
                MissingIn("Granulozyten", "gb_", GbFelder, values),
                MissingIn("Lymphozyten", "ly_", LyFelder, values),
                MissingIn("Thrombozyten", "th_", ThFelder, values));
  }

  // ---------------------------------------------------------------------
  // The stored record
  // ---------------------------------------------------------------------

  datatype CellCounts = CellCounts(z1: int, z2: int, avg: real)

  /** A dictionary in insertion order. */
  type Dict<V> = seq<(string, V)>

  datatype HaemaRecord = HaemaRecord(
    timestamp: string,
    titel: string,
    zellwerte: Dict<CellCounts>,
    notizen: Dict<string>,
    rbb: Dict<string>,
    granulo: Dict<string>,
    lympho: Dict<string>,
    thrombo: Dict<string>)

  /** `{feld: session.get(prefix + feld, "") for feld in fields}` */
  function FieldDict(prefix: string, fields: seq<string>, values: map<string, string>): (d: Dict<string>)
    ensures Names(d) == fields
    ensures forall i :: 0 <= i < |d| ==> d[i].1 == ValueOf(values, prefix + fields[i])
  {
    seq(|fields|, i requires 0 <= i < |fields| => (fields[i], ValueOf(values, prefix + fields[i])))
  }

  /** The `zellwerte` dictionary: both counts and their mean per cell type. */
  function CountDict(counts: map<Counter, int>): (d: Dict<CellCounts>)
    ensures Names(d) == Zelltypen
    ensures forall i :: 0 <= i < |d| ==>
      d[i].1.z1 == CountOf(counts, Z1(Zelltypen[i]))
      && d[i].1.z2 == CountOf(counts, Z2(Zelltypen[i]))
      && 2.0 * d[i].1.avg == (d[i].1.z1 + d[i].1.z2) as real
  {
    seq(|Zelltypen|, i requires 0 <= i < |Zelltypen| =>
      var z1 := CountOf(counts, Z1(Zelltypen[i]));
      var z2 := CountOf(counts, Z2(Zelltypen[i]));
      (Zelltypen[i], CellCounts(z1, z2, Average(z1, z2))))
  }

  /** `eintrag` */
  function BuildRecord(isoNow: string, titel: string, counts: map<Counter, int>,
                       values: map<string, string>): (r: HaemaRecord)
    ensures Names(r.zellwerte) == Zelltypen
    ensures Names(r.notizen) == ["rbb", "granulo", "lympho", "thrombo"]
    ensures Names(r.rbb) == RbFelder && Names(r.granulo) == GbFelder
    ensures Names(r.lympho) == LyFelder && Names(r.thrombo) == ThFelder
  {
    HaemaRecord(
      isoNow,
      titel,
      CountDict(counts),
      [("rbb", ValueOf(values, "rb_sonstiges")), ("granulo", ValueOf(values, "ng_sonstiges")),
       ("lympho", ValueOf(values, "lc_sonstiges")), ("thrombo", ValueOf(values, "th_sonstiges"))],
      FieldDict("rb_", RbFelder, values),
      FieldDict("gb_", GbFelder, values),
      FieldDict("ly_", LyFelder, values),
      FieldDict("th_", ThFelder, values))
  }

  /** After a run of the table every cell type's counts in the record are
      its session counters, never negative. */
  lemma RecordCountsNonNegative(counts: map<Counter, int>, isoNow: string, titel: string,
                                values: map<string, string>, i: int)
    requires forall k :: k in counts ==> counts[k] >= 0
    requires 0 <= i < |Zelltypen|
    ensures var c := BuildRecord(isoNow, titel, counts, values).zellwerte[i].1;
      c.z1 >= 0 && c.z2 >= 0 && c.avg >= 0.0
  {
  }

  // ---------------------------------------------------------------------
  // The Word sections
  // ---------------------------------------------------------------------

  datatype Paragraph = Heading(text: string, level: nat) | Bullet(text: string) | Normal(text: string)

  /** `str.splitlines()` for text whose line breaks are `\n` (a `\r` before
      it is removed by the `strip` that follows): no field for a final
      break, no line at all for "". */
  function SplitLines(s: string): (r: seq<string>)
    ensures s == "" <==> r == []
    ensures forall i :: 0 <= i < |r| ==> '\n' !in r[i]
    ensures s != "" ==> Join(r, '\n') == s || Join(r, '\n') + "\n" == s
    ensures s != "" ==> (Join(r, '\n') + "\n" == s <==> s[|s| - 1] == '\n')
  {
    if s == "" then []
    else
      var parts := Split(s, '\n');
      var last := parts[|parts| - 1];
      if |parts| > 1 && last == "" then
        JoinLast(parts, '\n');
        parts[..|parts| - 1]
      else
        if |parts| > 1 then
          JoinLast(parts, '\n');
          assert s[|s| - 1] == last[|last| - 1];
          parts
        else parts
  }

  /** `f"{k}: {v if v != '' else '-'}"` */
  function FieldLine(k: string, v: string): string {
    k + ": " + (if v != "" then v else "-")
  }

  function FieldBullets(fields: Dict<string>): (r: seq<Paragraph>)
    ensures |r| == |fields|
    ensures forall i :: 0 <= i < |r| ==> r[i] == Bullet(FieldLine(fields[i].0, fields[i].1))
  {
    seq(|fields|, i requires 0 <= i < |fields| => Bullet(FieldLine(fields[i].0, fields[i].1)))
  }

  /** One `Normal` paragraph per line, each line stripped. */
  function StrippedLines(lines: seq<string>): (r: seq<Paragraph>)
    ensures |r| == |lines|
    ensures forall i :: 0 <= i < |r| ==> r[i] == Normal(Strip(lines[i]))
  {
    seq(|lines|, i requires 0 <= i < |lines| => Normal(Strip(lines[i])))
  }

  lemma StrippedLinesSnoc(lines: seq<string>, j: nat)
    requires j < |lines|
    ensures StrippedLines(lines[..j + 1]) == StrippedLines(lines[..j]) + [Normal(Strip(lines[j]))]
  {
    var a, b := StrippedLines(lines[..j + 1]), StrippedLines(lines[..j]) + [Normal(Strip(lines[j]))];
    assert |a| == |b|;
    forall i | 0 <= i < |a| ensures a[i] == b[i] {
      assert lines[..j + 1][i] == lines[i];
    }
  }

  function NoteParagraphs(text: string): (r: seq<Paragraph>)
    ensures |r| >= 1
  {
    if text != "" then StrippedLines(SplitLines(text)) else [Normal("-")]
  }

  /** The paragraphs `add_section` adds: a level-2 heading, one bullet per
      field, a "Sonstiges:" bullet and the note's lines. */
  function SectionParagraphs(title: string, fields: Dict<string>, note: string): seq<Paragraph> {
    [Heading(title, 2)] + FieldBullets(fields) + [Bullet("Sonstiges:")] + NoteParagraphs(note)
  }

  /** A field line never ends in an empty value: an empty value is shown
      as `-`. */
  lemma FieldLineShowsValue(k: string, v: string)
    ensures v == "" ==> FieldLine(k, v) == k + ": -"
    ensures v != "" ==> EndsWith(FieldLine(k, v), ": " + v)
  {
    assert FieldLine(k, v) == k + (": " + (if v != "" then v else "-"));
  }

  /** The layout of a section: heading, one bullet per field in order, the
      "Sonstiges:" bullet, then the note, which is a single `-` when empty. */
  lemma SectionLayout(title: string, fields: Dict<string>, note: string)
    ensures var ps := SectionParagraphs(title, fields, note);
      && |ps| >= |fields| + 3
      && ps[0] == Heading(title, 2)
      && (forall i :: 0 <= i < |fields| ==> ps[i + 1] == Bullet(FieldLine(fields[i].0, fields[i].1)))
      && ps[|fields| + 1] == Bullet("Sonstiges:")
      && ps[|fields| + 2..] == NoteParagraphs(note)
      && (note == "" ==> ps[|fields| + 2..] == [Normal("-")])
  {
    SectionParts(Heading(title, 2), FieldBullets(fields), Bullet("Sonstiges:"), NoteParagraphs(note));
  }

  /** Where the parts of a section sit in the concatenation. */
  lemma SectionParts<T>(a: T, b: seq<T>, c: T, d: seq<T>)
    ensures var ps := [a] + b + [c] + d;
      && |ps| == |b| + 2 + |d|
      && ps[0] == a
      && (forall i :: 0 <= i < |b| ==> ps[i + 1] == b[i])
      && ps[|b| + 1] == c
      && ps[|b| + 2..] == d
  {
    var ps := [a] + b + [c] + d;
    assert ps[|b| + 2..] == d;
  }

  /** A note of blanks is not empty text: it gives one empty line rather
      than `-`. */
  lemma BlankNoteGivesEmptyLine()
    ensures NoteParagraphs("  ") == [Normal("")]
  {
    assert Split("  ", '\n') == ["  "];
    assert Strip("  ") == "";
  }

  /** The document being built for the export. */
  class WordDocument {
    var paragraphs: seq<Paragraph>

    constructor ()
      ensures paragraphs == []
    {
      paragraphs := [];
    }

    method Add(p: Paragraph)
      modifies this
      ensures paragraphs == old(paragraphs) + [p]
    {
      paragraphs := paragraphs + [p];
    }

    /** The bullet loop of `add_section`. */
    method AddFieldBullets(fields: Dict<string>)
      modifies this
      ensures paragraphs == old(paragraphs) + FieldBullets(fields)
    {
      for i := 0 to |fields|
        invariant paragraphs == old(paragraphs) + FieldBullets(fields[..i])
      {
        Add(Bullet(FieldLine(fields[i].0, fields[i].1)));
        assert FieldBullets(fields[..i + 1]) == FieldBullets(fields[..i]) + [Bullet(FieldLine(fields[i].0, fields[i].1))];
      }
      assert fields[..|fields|] == fields;
    }

    /** The note part of `add_section`: one stripped paragraph per line, or
        `-` for an empty note. */
    method AddNote(note: string)
      modifies this
      ensures paragraphs == old(paragraphs) + NoteParagraphs(note)
    {
      if note != "" {
        var lines := SplitLines(note);
        for j := 0 to |lines|
          invariant paragraphs == old(paragraphs) + StrippedLines(lines[..j])
        {
          StrippedLinesSnoc(lines, j);
          Add(Normal(Strip(lines[j])));
        }
        assert lines[..|lines|] == lines;
      } else {
        Add(Normal("-"));
      }
    }

    /** `add_section(doc, title, felder_dict, sonst_text)` */
    method AddSection(title: string, fields: Dict<string>, note: string)
      modifies this
      ensures paragraphs == old(paragraphs) + SectionParagraphs(title, fields, note)
    {
      ghost var p0 := paragraphs;
      Add(Heading(title, 2));
      AddFieldBullets(fields);
      Add(Bullet("Sonstiges:"));
      AddNote(note);
      AppendFive(p0, [Heading(title, 2)], FieldBullets(fields), [Bullet("Sonstiges:")], NoteParagraphs(note));
    }
  }

  lemma AppendFive<T>(p: seq<T>, a: seq<T>, b: seq<T>, c: seq<T>, d: seq<T>)
    ensures p + a + b + c + d == p + (a + b + c + d)
  {
  }

  // ---------------------------------------------------------------------
  // File names and saving
  // ---------------------------------------------------------------------

  /** `f"{timestamp}_{titel.replace(' ', '-')}"`, shared by both exports. */
  function ExportStem(ts: string, titel: string): string {
    ts + "_" + ReplaceChar(titel, ' ', "-")
  }

  function WordName(ts: string, titel: string): string { ExportStem(ts, titel) + ".docx" }
  function PdfName(ts: string, titel: string): string { ExportStem(ts, titel) + ".pdf" }

  /** The Word and the PDF name differ only in their extension, and the
      title's spaces are gone from both. */
  lemma ExportNamesShareStem(ts: string, titel: string)
    ensures WordName(ts, titel)[..|WordName(ts, titel)| - 5] == PdfName(ts, titel)[..|PdfName(ts, titel)| - 4]
    ensures ' ' !in ts ==> ' ' !in WordName(ts, titel) && ' ' !in PdfName(ts, titel)
  {
    ReplaceCharRemoves(titel, ' ', "-");
    var stem := ExportStem(ts, titel);
    assert WordName(ts, titel)[..|stem|] == stem;
    assert PdfName(ts, titel)[..|stem|] == stem;
  }

  /** The names the image loop saves under: each upload's own name after
      the timestamp taken for it. */
  function StampedWrites(uploads: seq<Upload>, stamps: seq<string>): (ws: seq<(string, Bytes)>)
    requires |stamps| == |uploads|
    ensures |ws| == |uploads|
    ensures forall i :: 0 <= i < |ws| ==> ws[i] == (stamps[i] + "_" + uploads[i].name, uploads[i].content)
  {
    seq(|uploads|, i requires 0 <= i < |uploads| => (stamps[i] + "_" + uploads[i].name, uploads[i].content))
  }

  /** Every uploaded image is stored, with no check for duplicates. */
  lemma EveryImageStored(files: map<string, Bytes>, uploads: seq<Upload>, stamps: seq<string>, i: int)
    requires |stamps| == |uploads| && 0 <= i < |uploads|
    ensures stamps[i] + "_" + uploads[i].name in Applied(files, StampedWrites(uploads, stamps))
  {
    var ws := StampedWrites(uploads, stamps);
    assert ws[i].0 in Written(ws);
  }

  /** The image loop, one fresh timestamp per image. */
  method SaveUploadedImages(folder: Folder<Bytes>, uploads: seq<Upload>, stamps: seq<string>)
    requires |stamps| == |uploads|
    modifies folder
    ensures folder.files == Applied(old(folder.files), StampedWrites(uploads, stamps))
  {
    for i := 0 to |uploads|
      invariant folder.files == Applied(old(folder.files), StampedWrites(uploads[..i], stamps[..i]))
    {
      assert StampedWrites(uploads[..i + 1], stamps[..i + 1])[..i] == StampedWrites(uploads[..i], stamps[..i]);
      folder.Save(stamps[i] + "_" + uploads[i].name, uploads[i].content);
    }
    assert uploads[..|uploads|] == uploads && stamps[..|stamps|] == stamps;
  }

  /** The "save and export" button, once the select boxes are checked: any
      missing value stops the page before the images or the record are
      stored; otherwise the record is built and the Word file saved. The
      PDF is only offered for download. */
  method SaveAndExport(values: map<string, string>, counts: map<Counter, int>,
                       uploads: seq<Upload>, stamps: seq<string>, ts: string, isoNow: string,
                       wordBytes: Bytes, images: Folder<Bytes>, words: Folder<Bytes>)
    returns (result: Result<HaemaRecord, seq<string>>)
    requires |stamps| == |uploads| && images != words
    modifies images, words
    ensures result.Err? <==> Missing(values) != []
    ensures result.Err? ==> result.error == Missing(values) && unchanged(images, words)
    ensures result.Ok? ==>
      && result.value == BuildRecord(isoNow, ValueOf(values, "haema_titel"), counts, values)
      && images.files == Applied(old(images.files), StampedWrites(uploads, stamps))
      && words.files == old(words.files)[WordName(ts, ValueOf(values, "haema_titel")) := wordBytes]
  {
    var fehlende := CollectMissing(values);
    if fehlende != [] {
      return Err(fehlende);
    }
    SaveUploadedImages(images, uploads, stamps);
    var titel := ValueOf(values, "haema_titel");
    var record := BuildRecord(isoNow, titel, counts, values);
    words.Save(WordName(ts, titel), wordBytes);
    result := Ok(record);
  }
}
