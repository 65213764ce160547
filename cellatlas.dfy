/** The cell atlas (`pages/08_Zellatlas.py` and its near twin
    `pages/08_Referenz_Haematologie.py`): a list of pending entries kept in
    the session, saved as one YAML file per entry (plus its image) into one
    folder, listed newest first, exported oldest first, and deleted together
    with their image. */
module CellAtlas {
  import opened Wrappers
  import opened Text
  import opened Store
  import Ordering

  // ---------------------------------------------------------------------
  // Pending entries
  // ---------------------------------------------------------------------

  /** A pending entry: `{}` or `{"typ", "beschreibung", "bild"}`. */
  datatype Pending = Blank | Filled(typ: string, beschreibung: string, bild: Option<Upload>)

  /** `eintrag.get("typ") and eintrag.get("beschreibung")` */
  predicate Savable(e: Pending) {
    e.Filled? && e.typ != "" && e.beschreibung != ""
  }

  /** The clock reading taken for one saved entry: `%Y%m%dT%H%M%S` and ISO. */
  datatype Stamp = Stamp(compact: string, iso: string)

  /** The content of one stored YAML file. */
  datatype AtlasDoc = AtlasDoc(typ: string, beschreibung: string, zeit: string, bild: Option<string>)

  /** What the atlas folder holds: image bytes or a YAML document. */
  datatype Blob = Binary(data: Bytes) | Yaml(doc: AtlasDoc)

  // ---------------------------------------------------------------------
  // Names
  // ---------------------------------------------------------------------

  /** `f"{timestamp}_{bild.name.replace(' ', '_')}"` */
  function ImageName(ts: string, name: string): (r: string)
    ensures StartsWith(r, ts + "_")
    ensures |r| == |ts| + 1 + |name|
    ensures forall i :: 0 <= i < |name| ==> r[|ts| + 1 + i] == (if name[i] == ' ' then '_' else name[i])
    ensures ' ' !in r[|ts| + 1..]
  {
    ReplaceCharRemoves(name, ' ', "_");
    ReplaceCharPointwise(name, ' ', '_');
    var r := ts + "_" + ReplaceChar(name, ' ', "_");
    assert r[|ts| + 1..] == ReplaceChar(name, ' ', "_");
    r
  }

  /** `f"{timestamp}_{typ.split(':')[1].strip().lower().replace(' ', '_')}.yaml"`;
      `None` where `split(':')[1]` raises because `typ` has no ':'. */
  function YamlName(ts: string, typ: string): (r: Option<string>)
    ensures r.None? <==> ':' !in typ
    ensures r.Some? ==> StartsWith(r.value, ts + "_") && EndsWith(r.value, ".yaml")
  {
    var parts := Split(typ, ':');
    if |parts| < 2 then None
    else
      var stem := ReplaceChar(Lower(Strip(parts[1])), ' ', "_");
      var r := ts + "_" + stem + ".yaml";
      assert r[..|ts| + 1] == ts + "_";
      Some(r)
  }

  /** For a type offered by the select box, `"<group>: <cell>"`, the name is
      the timestamp and the cell name, stripped, lower-cased, with `_` for
      spaces. */
  lemma YamlNameOfOption(ts: string, group: string, cell: string)
    requires ':' !in group && ':' !in cell
    ensures YamlName(ts, group + ": " + cell)
      == Some(ts + "_" + ReplaceChar(Lower(Strip(" " + cell)), ' ', "_") + ".yaml")
  {
    assert group + ": " + cell == group + [':'] + (" " + cell);
    SplitAtFirst(group, " " + cell, ':');
    assert ':' !in " " + cell;
    var rest := Split(" " + cell, ':');
    assert |rest| == 1 && Join(rest, ':') == rest[0];
  }

  // ---------------------------------------------------------------------
  // Saving
  // ---------------------------------------------------------------------

  /** The document stored for a savable entry. */
  function EntryDoc(e: Pending, st: Stamp): (d: AtlasDoc)
    requires e.Filled?
    ensures d.bild.Some? <==> e.bild.Some?
    ensures e.bild.Some? ==> d.bild == Some(ImageName(st.compact, e.bild.value.name))
  {
    AtlasDoc(e.typ, e.beschreibung, st.iso,
             if e.bild.Some? then Some(ImageName(st.compact, e.bild.value.name)) else None)
  }

  /** The outcome of the save loop over a prefix of the entries: the writes
      made, whether some entry was saved, and whether a type without ':'
      raised (which ends the loop and the page run). */
  datatype Plan = Plan(writes: seq<(string, Blob)>, saved: bool, crashed: bool)

  /** The image write of an entry: none, or one under its stamped name. */
  function ImageWrite(e: Pending, st: Stamp): seq<(string, Blob)>
    requires e.Filled?
  {
    if e.bild.Some? then [(ImageName(st.compact, e.bild.value.name), Binary(e.bild.value.content))] else []
  }

  /** One turn of the save loop on an entry, after the earlier turns gave `p`. */
  function SaveStep(p: Plan, e: Pending, st: Stamp): Plan {
    if !Savable(e) then p
    else
      match YamlName(st.compact, e.typ)
      case None => Plan(p.writes + ImageWrite(e, st), p.saved, true)
      case Some(y) => Plan(p.writes + ImageWrite(e, st) + [(y, Yaml(EntryDoc(e, st)))], true, false)
  }

  function SavePlan(es: seq<Pending>, stamps: seq<Stamp>): Plan
    requires |stamps| == |es|
  {
    if |es| == 0 then Plan([], false, false)
    else
      var n := |es| - 1;
      var p := SavePlan(es[..n], stamps[..n]);
      if p.crashed then p else SaveStep(p, es[n], stamps[n])
  }

  lemma SavePlanPrefix(es: seq<Pending>, stamps: seq<Stamp>, i: int)
    requires |stamps| == |es| && 0 <= i < |es|
    requires !SavePlan(es[..i], stamps[..i]).crashed
    ensures SavePlan(es[..i + 1], stamps[..i + 1]) == SaveStep(SavePlan(es[..i], stamps[..i]), es[i], stamps[i])
  {
    assert es[..i + 1][..i] == es[..i] && stamps[..i + 1][..i] == stamps[..i];
  }

  /** Some savable entry has a type without ':'. */
  predicate HasBadType(es: seq<Pending>) {
    exists i :: 0 <= i < |es| && Savable(es[i]) && ':' !in es[i].typ
  }

  predicate HasSavable(es: seq<Pending>) {
    exists i :: 0 <= i < |es| && Savable(es[i])
  }

  /** The loop raises exactly when a savable entry has a type without ':';
      otherwise it reports success exactly when some entry was savable. */
  lemma {:induction false} SavePlanOutcome(es: seq<Pending>, stamps: seq<Stamp>)
    requires |stamps| == |es|
    ensures SavePlan(es, stamps).crashed <==> HasBadType(es)
    ensures !SavePlan(es, stamps).crashed ==> (SavePlan(es, stamps).saved <==> HasSavable(es))
  {
    if |es| > 0 {
      var n := |es| - 1;
      SavePlanOutcome(es[..n], stamps[..n]);
      assert forall i :: 0 <= i < n ==> es[..n][i] == es[i];
      if HasBadType(es[..n]) {
        var i :| 0 <= i < n && Savable(es[..n][i]) && ':' !in es[..n][i].typ;
        assert Savable(es[i]) && ':' !in es[i].typ;
      }
      if HasSavable(es[..n]) {
        var i :| 0 <= i < n && Savable(es[..n][i]);
        assert Savable(es[i]);
      }
    }
  }

  /** Once the loop has raised, later entries change nothing. */
  lemma {:induction false} CrashIsFinal(es: seq<Pending>, stamps: seq<Stamp>, k: nat)
    requires |stamps| == |es| && k <= |es|
    requires SavePlan(es[..k], stamps[..k]).crashed
    ensures SavePlan(es, stamps) == SavePlan(es[..k], stamps[..k])
  {
    if k < |es| {
      var n := |es| - 1;
      assert es[..n][..k] == es[..k] && stamps[..n][..k] == stamps[..k];
      CrashIsFinal(es[..n], stamps[..n], k);
    } else {
      assert es[..k] == es && stamps[..k] == stamps;
    }
  }

  /** A later turn of the loop keeps the writes of the earlier ones. */
  lemma StepKeepsWrites(p: Plan, e: Pending, st: Stamp)
    ensures SaveStep(p, e, st).writes[..|p.writes|] == p.writes
  {
    if Savable(e) {
      var w := p.writes + ImageWrite(e, st);
      assert (w + [(".yaml", Binary([]))])[..|p.writes|] == p.writes;
      assert forall x :: (w + [x])[..|p.writes|] == p.writes;
    }
  }

  /** A turn on a savable entry whose type has a ':' writes its image and
      its YAML file. */
  lemma StepWritesEntry(p: Plan, e: Pending, st: Stamp)
    requires Savable(e) && ':' in e.typ
    ensures YamlName(st.compact, e.typ).Some?
    ensures (YamlName(st.compact, e.typ).value, Yaml(EntryDoc(e, st))) in SaveStep(p, e, st).writes
    ensures forall x :: x in ImageWrite(e, st) ==> x in SaveStep(p, e, st).writes
  {
    var y := YamlName(st.compact, e.typ).value;
    var w := p.writes + ImageWrite(e, st) + [(y, Yaml(EntryDoc(e, st)))];
    assert w[|w| - 1] == (y, Yaml(EntryDoc(e, st)));
    forall x | x in ImageWrite(e, st) ensures x in w {
      assert w[|p.writes|] == x;
    }
  }

  /** A saved entry's YAML file is written under its name with its document,
      and its image, if any, under the name the document records. */
  lemma {:induction false} SavedEntryWritten(es: seq<Pending>, stamps: seq<Stamp>, i: int)
    requires |stamps| == |es| && 0 <= i < |es| && Savable(es[i])
    requires !HasBadType(es)
    ensures YamlName(stamps[i].compact, es[i].typ).Some?
    ensures (YamlName(stamps[i].compact, es[i].typ).value, Yaml(EntryDoc(es[i], stamps[i])))
      in SavePlan(es, stamps).writes
    ensures forall x :: x in ImageWrite(es[i], stamps[i]) ==> x in SavePlan(es, stamps).writes
  {
    var n := |es| - 1;
    assert forall j :: 0 <= j < n ==> es[..n][j] == es[j];
    assert !HasBadType(es[..n]);
    SavePlanOutcome(es[..n], stamps[..n]);
    var p := SavePlan(es[..n], stamps[..n]);
    assert SavePlan(es, stamps) == SaveStep(p, es[n], stamps[n]);
    if i < n {
      SavedEntryWritten(es[..n], stamps[..n], i);
      assert stamps[..n][i] == stamps[i];
      StepKeepsWrites(p, es[n], stamps[n]);
      var w := SaveStep(p, es[n], stamps[n]).writes;
      assert forall x :: x in p.writes ==> x in w by {
        forall x | x in p.writes ensures x in w {
          var k :| 0 <= k < |p.writes| && p.writes[k] == x;
          assert w[k] == x;
        }
      }
    } else {
      StepWritesEntry(p, es[n], stamps[n]);
    }
  }

  /** `w` is one of the writes a turn makes for `e`: its image or its YAML
      file, and only when `e` is savable. */
  predicate WriteOf(w: (string, Blob), e: Pending, st: Stamp) {
    && Savable(e)
    && (|| w in ImageWrite(e, st)
        || (YamlName(st.compact, e.typ).Some? && w == (YamlName(st.compact, e.typ).value, Yaml(EntryDoc(e, st)))))
  }

  /** A turn adds only writes for its own entry. */
  lemma StepWritesOnlyEntry(p: Plan, e: Pending, st: Stamp)
    ensures forall w :: w in SaveStep(p, e, st).writes ==> w in p.writes || WriteOf(w, e, st)
  {
    if Savable(e) {
      var w1 := p.writes + ImageWrite(e, st);
      assert forall w :: w in w1 ==> w in p.writes || w in ImageWrite(e, st);
    }
  }

  /** Only savable entries are written: every write of the loop is the
      image or the YAML file of an entry with a type and a description. */
  lemma {:induction false} OnlySavableWritten(es: seq<Pending>, stamps: seq<Stamp>)
    requires |stamps| == |es|
    ensures forall w :: w in SavePlan(es, stamps).writes ==>
      exists i :: 0 <= i < |es| && WriteOf(w, es[i], stamps[i])
  {
    if |es| > 0 {
      var n := |es| - 1;
      OnlySavableWritten(es[..n], stamps[..n]);
      var p := SavePlan(es[..n], stamps[..n]);
      StepWritesOnlyEntry(p, es[n], stamps[n]);
      forall w | w in SavePlan(es, stamps).writes
        ensures exists i :: 0 <= i < |es| && WriteOf(w, es[i], stamps[i])
      {
        if w in p.writes {
          var i :| 0 <= i < n && WriteOf(w, es[..n][i], stamps[..n][i]);
          assert es[..n][i] == es[i] && stamps[..n][i] == stamps[i];
        } else {
          assert WriteOf(w, es[n], stamps[n]);
        }
      }
    }
  }

  /** One turn of the save loop on a savable entry: its image, if any, is
      saved, then its YAML file unless its type has no ':'. */
  method SaveOne(folder: Folder<Blob>, e: Pending, st: Stamp, ghost base: map<string, Blob>, ghost p: Plan)
      returns (crashed: bool)
    requires Savable(e) && folder.files == Applied(base, p.writes)
    modifies folder
    ensures crashed == SaveStep(p, e, st).crashed
    ensures folder.files == Applied(base, SaveStep(p, e, st).writes)
  {
    ghost var w1 := p.writes + ImageWrite(e, st);
    if e.bild.Some? {
      var n := ImageName(st.compact, e.bild.value.name);
      folder.Save(n, Binary(e.bild.value.content));
      AppliedSnoc(base, p.writes, (n, Binary(e.bild.value.content)));
    } else {
      assert w1 == p.writes;
    }
    var y := YamlName(st.compact, e.typ);
    if y.None? {
      assert SaveStep(p, e, st) == Plan(w1, p.saved, true);
      return true;
    }
    assert SaveStep(p, e, st) == Plan(w1 + [(y.value, Yaml(EntryDoc(e, st)))], true, false);
    folder.Save(y.value, Yaml(EntryDoc(e, st)));
    AppliedSnoc(base, w1, (y.value, Yaml(EntryDoc(e, st))));
    crashed := false;
  }

  /** The entry list of the form, kept in the session between runs. */
  class AtlasForm {
    var entries: seq<Pending>

    /** The list is never empty: it starts as `[{}]`, only grows, and is
        reset to `[{}]`. */
    predicate Valid()
      reads this
    {
      |entries| >= 1
    }

    /** `st.session_state.zell_eintraege = [{}]` */
    constructor ()
      ensures entries == [Blank] && Valid()
    {
      entries := [Blank];
    }

    /** The form loop of the reference page: each index takes its own
        widgets' values. */
    method BindEach(typs: seq<string>, descs: seq<string>, bilder: seq<Option<Upload>>)
      requires Valid()
      requires |typs| == |descs| == |bilder| == |entries|
      modifies this
      ensures Valid() && |entries| == |old(entries)|
      ensures forall i :: 0 <= i < |entries| ==> entries[i] == Filled(typs[i], descs[i], bilder[i])
    {
      for idx := 0 to |entries|
        invariant |entries| == |old(entries)|
        invariant forall i :: 0 <= i < idx ==> entries[i] == Filled(typs[i], descs[i], bilder[i])
      {
        entries := entries[idx := Filled(typs[idx], descs[idx], bilder[idx])];
      }
    }

    /** The form of the atlas page: the uploader and the description sit
        after the loop, so only the last index is assigned, with the type
        chosen for it and the values of the last index's widgets. */
    method BindLast(typ: string, desc: string, bild: Option<Upload>)
      requires Valid()
      modifies this
      ensures Valid() && |entries| == |old(entries)|
      ensures entries[|entries| - 1] == Filled(typ, desc, bild)
      ensures entries[..|entries| - 1] == old(entries)[..|entries| - 1]
    {
      entries := entries[|entries| - 1 := Filled(typ, desc, bild)];
    }

    /** The "add" button. */
    method AddEntry()
      requires Valid()
      modifies this
      ensures Valid() && entries == old(entries) + [Blank]
    {
      entries := entries + [Blank];
    }

    /** The "save all" button: every savable entry is written (its image
        first, then its YAML file); the list is reset to `[{}]` when some
        entry was saved, and left alone when none was or when a type without
        ':' raised part-way. */
    method SaveAll(folder: Folder<Blob>, stamps: seq<Stamp>) returns (erfolgreich: bool, crashed: bool)
      requires Valid() && |stamps| == |entries|
      modifies this, folder
      ensures var plan := SavePlan(old(entries), stamps);
        && folder.files == Applied(old(folder.files), plan.writes)
        && erfolgreich == plan.saved && crashed == plan.crashed
        && entries == (if plan.saved && !plan.crashed then [Blank] else old(entries))
      ensures Valid()
    {
      erfolgreich := false;
      crashed := false;
      var i := 0;
      while i < |entries|
        invariant i <= |entries| && entries == old(entries)
        invariant SavePlan(entries[..i], stamps[..i]).saved == erfolgreich
        invariant !SavePlan(entries[..i], stamps[..i]).crashed
        invariant folder.files == Applied(old(folder.files), SavePlan(entries[..i], stamps[..i]).writes)
      {
        ghost var p := SavePlan(entries[..i], stamps[..i]);
        SavePlanPrefix(entries, stamps, i);
        if Savable(entries[i]) {
          crashed := SaveOne(folder, entries[i], stamps[i], old(folder.files), p);
          if crashed {
            CrashIsFinal(entries, stamps, i + 1);
            return;
          }
          erfolgreich := true;
        }
        i := i + 1;
      }
      assert entries[..|entries|] == entries && stamps[..|stamps|] == stamps;
      if erfolgreich {
        entries := [Blank];
      }
    }
  }

  /** Two entries, the first filled in and then, after the second was
      added, given another type: the atlas page's binding keeps the first
      entry's old type, the reference page's binding takes the new one. */
  method FirstEntryEdit() returns (asWritten: Pending, intended: Pending)
    ensures asWritten == Filled("Rotes Blutbild: Normozyt", "rund", None)
    ensures intended == Filled("Thrombozyten: Normal", "rund", None)
  {
    var atlas := new AtlasForm();
    atlas.BindLast("Rotes Blutbild: Normozyt", "rund", None);
    atlas.AddEntry();
    atlas.BindLast("Rotes Blutbild: Mikrozyt", "klein", None);
    asWritten := atlas.entries[0];

    var reference := new AtlasForm();
    reference.BindEach(["Rotes Blutbild: Normozyt"], ["rund"], [None]);
    reference.AddEntry();
    reference.BindEach(["Thrombozyten: Normal", "Rotes Blutbild: Mikrozyt"], ["rund", "klein"], [None, None]);
    intended := reference.entries[0];
  }

  // ---------------------------------------------------------------------
  // Listing and order
  // ---------------------------------------------------------------------

  /** One item of `ls`: a detail dict with a name, or a bare name. */
  datatype LsItem = Info(name: string) | Path(path: string)

  function ItemName(f: LsItem): string {
    match f
    case Info(n) => n
    case Path(p) => p
  }

  /** `eintrags_liste`: the names ending in ".yaml", in listing order. */
  function YamlListing(ls: seq<LsItem>): (r: seq<string>)
    ensures |r| <= |ls|
    ensures forall x :: x in r <==> (exists f :: f in ls && ItemName(f) == x) && EndsWith(x, ".yaml")
  {
    if |ls| == 0 then []
    else
      var rest := YamlListing(ls[1..]);
      assert forall f :: f in ls <==> f == ls[0] || f in ls[1..] by {
        assert ls == [ls[0]] + ls[1..];
      }
      var n := ItemName(ls[0]);
      if EndsWith(n, ".yaml") then [n] + rest else rest
  }

  /** The three orders the page uses: the display sorts the listing
      descending, the Word export then sorts it ascending, and the PDF walks
      that list backwards, which is the display order again. */
  method Orders(ls: seq<LsItem>) returns (display: seq<string>, word: seq<string>, pdf: seq<string>)
    ensures display == Ordering.Sort(YamlListing(ls), true)
    ensures word == Ordering.Sort(YamlListing(ls), false)
    ensures pdf == display
  {
    var liste := YamlListing(ls);
    liste := Ordering.Sort(liste, true);
    display := liste;
    Ordering.SortSpec(YamlListing(ls), true);
    Ordering.SortOfPermutation(liste, YamlListing(ls), false);
    liste := Ordering.Sort(liste, false);
    word := liste;
    pdf := Ordering.Reverse(liste);
    Ordering.ReverseOfAscending(YamlListing(ls));
  }

  /** Entries are shown newest first: of two names that start with
      timestamps of the same width, the later timestamp comes first. */
  lemma NewestFirst(names: seq<string>, i: int, j: int, t1: string, a: string, t2: string, b: string)
    requires 0 <= i < |Ordering.Sort(names, true)| && 0 <= j < |Ordering.Sort(names, true)|
    requires Ordering.Sort(names, true)[i] == t1 + a && Ordering.Sort(names, true)[j] == t2 + b
    requires |t1| == |t2| && t1 != t2 && Ordering.LessEq(t2, t1)
    ensures i < j
  {
    Ordering.SortSpec(names, true);
    Ordering.StampDecides(t2, t1, b, a);
    Ordering.LessEqRefl(t1 + a);
  }

  // ---------------------------------------------------------------------
  // Deleting
  // ---------------------------------------------------------------------

  /** An entry gets a delete button only when its file reads as a document
      and the image it names, if any, can be read for display. */
  predicate Shown(files: map<string, Blob>, filename: string) {
    var y := Basename(filename);
    && y in files && files[y].Yaml?
    && (files[y].doc.bild.Some? ==> Basename(files[y].doc.bild.value) in files)
  }

  /** The names a confirmed delete removes: the entry's file, and its image
      when the document names one that still exists once the entry is gone. */
  function DeleteSet(files: map<string, Blob>, filename: string): (gone: set<string>)
    requires Shown(files, filename)
    ensures Basename(filename) in gone
    ensures forall n :: n in gone ==> n in files
    ensures forall n :: n in files ==>
      (n in gone <==>
        (n == Basename(filename)
         || (files[Basename(filename)].doc.bild.Some? && n == Basename(files[Basename(filename)].doc.bild.value))))
  {
    var y := Basename(filename);
    var doc := files[y].doc;
    if doc.bild.Some? && Basename(doc.bild.value) in files - {y} then {y, Basename(doc.bild.value)} else {y}
  }

  /** The confirmed delete of a listed entry. An entry that cannot be shown
      has no delete button, and nothing changes. */
  method DeleteEntry(folder: Folder<Blob>, filename: string) returns (ok: bool)
    modifies folder
    ensures ok <==> Shown(old(folder.files), filename)
    ensures !ok ==> folder.files == old(folder.files)
    ensures ok ==> folder.files == old(folder.files) - DeleteSet(old(folder.files), filename)
  {
    var y := Basename(filename);
    if !Shown(folder.files, filename) {
      return false;
    }
    var doc := folder.files[y].doc;
    ok := folder.Delete(y);
    if doc.bild.Some? {
      var p := Basename(doc.bild.value);
      if folder.Exists(p) {
        var _ := folder.Delete(p);
      }
    }
  }

  /** Once deleted, an entry is neither listed again nor deletable a second
      time, and every other document stays. */
  lemma DeleteIsFinal(files: map<string, Blob>, filename: string, other: string)
    requires Shown(files, filename)
    requires other in files && files[other].Yaml? && other != Basename(filename)
    requires files[Basename(filename)].doc.bild.Some? ==> Basename(files[Basename(filename)].doc.bild.value) != other
    ensures !Shown(files - DeleteSet(files, filename), filename)
    ensures other in files - DeleteSet(files, filename)
  {
  }
}
