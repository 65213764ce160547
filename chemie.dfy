/** The chemistry entry page (`pages/03_Chemie.py`): uploaded images and
    documents are given sanitised, timestamped names and are skipped when
    the folder already holds them; saving writes the images, the documents,
    a Word file and a PDF, and appends one record to the subject's table. */
module Chemie {
  import opened Wrappers
  import opened Text
  import opened Store
  import Datei

  // ---------------------------------------------------------------------
  // Sanitising names
  // ---------------------------------------------------------------------

  /** What one character of an image name becomes. */
  function CleanChar(c: char): string {
    if c == ' ' then "_"
    else if c == '\U{E4}' then "ae"
    else if c == '\U{FC}' then "ue"
    else if c == '\U{F6}' then "oe"
    else [c]
  }

  /** The image name cleaned character by character. */
  function CleanEach(s: string): string {
    if |s| == 0 then "" else CleanChar(s[0]) + CleanEach(s[1..])
  }

  /** `clean_name`: spaces to `_`, then the umlauts ä, ü, ö to ae, ue, oe,
      as a chain of four replacements. */
  function CleanName(name: string): (r: string)
    ensures ' ' !in r && '\U{E4}' !in r && '\U{FC}' !in r && '\U{F6}' !in r
  {
    var a := ReplaceChar(name, ' ', "_");
    ReplaceCharRemoves(name, ' ', "_");
    var b := ReplaceChar(a, '\U{E4}', "ae");
    ReplaceCharRemoves(a, '\U{E4}', "ae");
    ReplaceCharKeepsAbsent(a, '\U{E4}', "ae", ' ');
    var c := ReplaceChar(b, '\U{FC}', "ue");
    ReplaceCharRemoves(b, '\U{FC}', "ue");
    ReplaceCharKeepsAbsent(b, '\U{FC}', "ue", ' ');
    ReplaceCharKeepsAbsent(b, '\U{FC}', "ue", '\U{E4}');
    var d := ReplaceChar(c, '\U{F6}', "oe");
    ReplaceCharRemoves(c, '\U{F6}', "oe");
    ReplaceCharKeepsAbsent(c, '\U{F6}', "oe", ' ');
    ReplaceCharKeepsAbsent(c, '\U{F6}', "oe", '\U{E4}');
    ReplaceCharKeepsAbsent(c, '\U{F6}', "oe", '\U{FC}');
    d
  }

  lemma CleanNameAppend(x: string, y: string)
    ensures CleanName(x + y) == CleanName(x) + CleanName(y)
  {
    ReplaceCharAppend(x, y, ' ', "_");
    var x1, y1 := ReplaceChar(x, ' ', "_"), ReplaceChar(y, ' ', "_");
    ReplaceCharAppend(x1, y1, '\U{E4}', "ae");
    var x2, y2 := ReplaceChar(x1, '\U{E4}', "ae"), ReplaceChar(y1, '\U{E4}', "ae");
    ReplaceCharAppend(x2, y2, '\U{FC}', "ue");
    var x3, y3 := ReplaceChar(x2, '\U{FC}', "ue"), ReplaceChar(y2, '\U{FC}', "ue");
    ReplaceCharAppend(x3, y3, '\U{F6}', "oe");
  }

  lemma CleanNameOne(c: char)
    ensures CleanName([c]) == CleanChar(c)
  {
    ReplaceCharSingle(c, ' ', "_");
    var a := ReplaceChar([c], ' ', "_");
    var b := ReplaceChar(a, '\U{E4}', "ae");
    if c == '\U{E4}' {
      ReplaceCharSingle(c, '\U{E4}', "ae");
    } else {
      ReplaceCharNoop(a, '\U{E4}', "ae");
    }
    var d := ReplaceChar(b, '\U{FC}', "ue");
    if c == '\U{FC}' {
      ReplaceCharSingle(c, '\U{FC}', "ue");
    } else {
      ReplaceCharNoop(b, '\U{FC}', "ue");
    }
    if c == '\U{F6}' {
      ReplaceCharSingle(c, '\U{F6}', "oe");
    } else {
      ReplaceCharNoop(d, '\U{F6}', "oe");
    }
  }

  /** The replacement chain is the same as cleaning each character on its
      own: every space, ä, ü and ö is replaced, every other character kept. */
  lemma {:induction false} CleanNameByChar(s: string)
    ensures CleanName(s) == CleanEach(s)
  {
    if |s| > 0 {
      assert s == [s[0]] + s[1..];
      CleanNameAppend([s[0]], s[1..]);
      CleanNameOne(s[0]);
      CleanNameByChar(s[1..]);
    }
  }

  /** A name that is already clean is left alone, so cleaning twice is
      cleaning once. */
  lemma CleanNameOfClean(s: string)
    requires ' ' !in s && '\U{E4}' !in s && '\U{FC}' !in s && '\U{F6}' !in s
    ensures CleanName(s) == s
  {
    ReplaceCharNoop(s, ' ', "_");
    ReplaceCharNoop(s, '\U{E4}', "ae");
    ReplaceCharNoop(s, '\U{FC}', "ue");
    ReplaceCharNoop(s, '\U{F6}', "oe");
  }

  lemma CleanNameIdempotent(s: string)
    ensures CleanName(CleanName(s)) == CleanName(s)
  {
    CleanNameOfClean(CleanName(s));
  }

  /** What one character of a stripped title becomes in `safe_title`. */
  function SafeChar(c: char): char {
    if c == ' ' then '_' else if c == '/' || c == '\\' then '-' else c
  }

  /** The three replacements of `safe_title` map each character through
      `SafeChar`, so none of space and the two slashes is left. */
  lemma SafeReplacements(t: string)
    ensures var r := ReplaceChar(ReplaceChar(ReplaceChar(t, ' ', "_"), '/', "-"), '\\', "-");
      && |r| == |t|
      && (forall i :: 0 <= i < |r| ==> r[i] == SafeChar(t[i]))
      && ' ' !in r && '/' !in r && '\\' !in r
  {
    var a := ReplaceChar(t, ' ', "_");
    ReplaceCharPointwise(t, ' ', '_');
    var b := ReplaceChar(a, '/', "-");
    ReplaceCharPointwise(a, '/', '-');
    var c := ReplaceChar(b, '\\', "-");
    ReplaceCharPointwise(b, '\\', '-');
    assert forall i :: 0 <= i < |c| ==> c[i] == SafeChar(t[i]);
  }

  /** `safe_title`: the stripped title with spaces to `_` and both slashes
      to `-`, character for character. */
  function SafeTitle(titel: string): (r: string)
    ensures |r| == |Strip(titel)|
    ensures forall i :: 0 <= i < |r| ==> r[i] == SafeChar(Strip(titel)[i])
    ensures ' ' !in r && '/' !in r && '\\' !in r
  {
    var t := Strip(titel);
    SafeReplacements(t);
    ReplaceChar(ReplaceChar(ReplaceChar(t, ' ', "_"), '/', "-"), '\\', "-")
  }

  // ---------------------------------------------------------------------
  // Stored names
  // ---------------------------------------------------------------------

  /** `hex[:8]` */
  function Hex8(hex: string): (r: string)
    ensures |r| == (if |hex| <= 8 then |hex| else 8) && StartsWith(hex, r)
    ensures forall c :: c in r ==> c in hex
  {
    if |hex| <= 8 then hex else hex[..8]
  }

  /** `f"{timestamp}_{uuid.hex}_{name}"` for an image. */
  function ImageStoreName(ts: string, hex: string, name: string): string {
    ts + "_" + hex + "_" + name
  }

  /** `f"{timestamp}_{uuid.hex[:8]}_{name_clean}"` for a document. */
  function DocStoreName(ts: string, hex: string, nameClean: string): string {
    ts + "_" + Hex8(hex) + "_" + nameClean
  }

  /** `f"{timestamp}_{safe_title}.docx"` */
  function WordName(ts: string, titel: string): string {
    ts + "_" + SafeTitle(titel) + ".docx"
  }

  /** `f"{timestamp}_{uuid.hex[:8]}_{safe_title}.pdf"` */
  function PdfName(ts: string, hex: string, titel: string): string {
    ts + "_" + Hex8(hex) + "_" + SafeTitle(titel) + ".pdf"
  }

  /** A stored image name ends with the clean name it was saved under. */
  lemma ImageStoreNameEnds(ts: string, hex: string, name: string)
    ensures EndsWith(ImageStoreName(ts, hex, name), name)
  {
  }

  /** A stored document name contains the clean name it was saved under. */
  lemma DocStoreNameContains(ts: string, hex: string, nameClean: string)
    ensures Contains(DocStoreName(ts, hex, nameClean), nameClean)
  {
    var f := DocStoreName(ts, hex, nameClean);
    assert OccursAt(f, nameClean, |f| - |nameClean|);
  }

  /** A name made of a prefix, a title and an extension ends with the
      title and the extension, and holds a `/` only if a part does. */
  lemma NameParts(prefix: string, title: string, ext: string)
    requires '/' !in prefix && '/' !in title && '/' !in ext
    ensures EndsWith(prefix + title + ext, title + ext)
    ensures '/' !in prefix + title + ext
  {
    assert prefix + title + ext == prefix + (title + ext);
    EndsWithConcat(prefix, title + ext);
  }

  lemma WordNameParts(ts: string, titel: string)
    requires '/' !in ts
    ensures EndsWith(WordName(ts, titel), SafeTitle(titel) + ".docx")
    ensures '/' !in WordName(ts, titel)
  {
    NameParts(ts + "_", SafeTitle(titel), ".docx");
  }

  lemma PdfNameParts(ts: string, hex: string, titel: string)
    requires '/' !in ts && '/' !in hex
    ensures EndsWith(PdfName(ts, hex, titel), SafeTitle(titel) + ".pdf")
    ensures '/' !in PdfName(ts, hex, titel)
  {
    NameParts(ts + "_" + Hex8(hex) + "_", SafeTitle(titel), ".pdf");
  }

  /** The export names carry the timestamp, the title's safe form and their
      extension, and never a path separator the timestamp does not bring. */
  lemma ExportNames(ts: string, hex: string, titel: string)
    requires '/' !in ts && '/' !in hex
    ensures EndsWith(WordName(ts, titel), SafeTitle(titel) + ".docx")
    ensures EndsWith(PdfName(ts, hex, titel), SafeTitle(titel) + ".pdf")
    ensures '/' !in WordName(ts, titel) && '/' !in PdfName(ts, hex, titel)
  {
    WordNameParts(ts, titel);
    PdfNameParts(ts, hex, titel);
  }

  // ---------------------------------------------------------------------
  // Images: preview queue and save
  // ---------------------------------------------------------------------

  /** Some stored name ends with `name`. */
  predicate ImageKnown(existing: set<string>, name: string) {
    exists f :: f in existing && EndsWith(f, name)
  }

  function Cleaned(u: Upload): Upload {
    Upload(CleanName(u.name), u.content)
  }

  /** The preview queue: each upload under its clean name, in upload order,
      unless a stored name already ends with that clean name. */
  function Queue(uploads: seq<Upload>, existing: set<string>): (q: seq<Upload>)
    ensures |q| <= |uploads|
    ensures forall v :: v in q <==>
      exists u :: u in uploads && v == Cleaned(u) && !ImageKnown(existing, v.name)
  {
    if |uploads| == 0 then []
    else
      var init := uploads[..|uploads| - 1];
      var u := uploads[|uploads| - 1];
      assert uploads == init + [u];
      var q := Queue(init, existing);
      if ImageKnown(existing, CleanName(u.name)) then q else q + [Cleaned(u)]
  }

  /** The queue keeps upload order: it distributes over concatenation. */
  lemma {:induction false} QueueAppend(a: seq<Upload>, b: seq<Upload>, existing: set<string>)
    ensures Queue(a + b, existing) == Queue(a, existing) + Queue(b, existing)
  {
    if |b| == 0 {
      assert a + b == a;
    } else {
      var init := b[..|b| - 1];
      assert (a + b)[..|a + b| - 1] == a + init;
      assert (a + b)[|a + b| - 1] == b[|b| - 1];
      QueueAppend(a, init, existing);
    }
  }

  /** The preview loop over the uploaded images. */
  method QueueImages(uploads: seq<Upload>, existing: set<string>) returns (queued: seq<Upload>)
    ensures queued == Queue(uploads, existing)
  {
    queued := [];
    for i := 0 to |uploads|
      invariant queued == Queue(uploads[..i], existing)
    {
      assert uploads[..i + 1][..i] == uploads[..i];
      var clean := CleanName(uploads[i].name);
      if ImageKnown(existing, clean) {
        continue;
      }
      queued := queued + [Upload(clean, uploads[i].content)];
    }
    assert uploads[..|uploads|] == uploads;
  }

  /** The writes the save loop makes for the queued images, each under
      `timestamp_hex_name` with its own random hex, checked against the
      listing taken before the loop. */
  function ImageWrites(queued: seq<Upload>, existing: set<string>, ts: string, hexes: seq<string>)
    : (ws: seq<(string, Bytes)>)
    requires |hexes| == |queued|
    ensures forall w :: w in ws <==>
      exists k :: 0 <= k < |queued| && !ImageKnown(existing, queued[k].name)
        && w == (ImageStoreName(ts, hexes[k], queued[k].name), queued[k].content)
  {
    if |queued| == 0 then []
    else
      var n := |queued| - 1;
      var prev := ImageWrites(queued[..n], existing, ts, hexes[..n]);
      assert forall k :: 0 <= k < n ==> queued[..n][k] == queued[k] && hexes[..n][k] == hexes[k];
      var u := queued[n];
      if ImageKnown(existing, u.name) then prev
      else prev + [(ImageStoreName(ts, hexes[n], u.name), u.content)]
  }

  /** One more queued image adds at most its own write. */
  lemma ImageWritesStep(queued: seq<Upload>, existing: set<string>, ts: string, hexes: seq<string>, i: int)
    requires |hexes| == |queued| && 0 <= i < |queued|
    ensures ImageWrites(queued[..i + 1], existing, ts, hexes[..i + 1])
      == ImageWrites(queued[..i], existing, ts, hexes[..i])
         + (if ImageKnown(existing, queued[i].name) then []
            else [(ImageStoreName(ts, hexes[i], queued[i].name), queued[i].content)])
  {
    assert queued[..i + 1][..i] == queued[..i] && hexes[..i + 1][..i] == hexes[..i];
  }

  /** The image save loop (one random hex per queued image). */
  method SaveImages(folder: Folder<Bytes>, queued: seq<Upload>, ts: string, hexes: seq<string>)
    requires |hexes| == |queued|
    modifies folder
    ensures folder.files == Applied(old(folder.files), ImageWrites(queued, old(folder.files).Keys, ts, hexes))
  {
    var existing := folder.files.Keys;
    for i := 0 to |queued|
      invariant folder.files == Applied(old(folder.files), ImageWrites(queued[..i], existing, ts, hexes[..i]))
    {
      ghost var prev := ImageWrites(queued[..i], existing, ts, hexes[..i]);
      ImageWritesStep(queued, existing, ts, hexes, i);
      var u := queued[i];
      if !ImageKnown(existing, u.name) {
        folder.Save(ImageStoreName(ts, hexes[i], u.name), u.content);
        AppliedSnoc(old(folder.files), prev, (ImageStoreName(ts, hexes[i], u.name), u.content));
      } else {
        assert prev + [] == prev;
      }
    }
    assert queued[..|queued|] == queued && hexes[..|hexes|] == hexes;
  }

  /** Nothing is queued when every upload's clean name is already known. */
  lemma {:induction false} QueueEmptyWhenKnown(uploads: seq<Upload>, existing: set<string>)
    requires forall u :: u in uploads ==> ImageKnown(existing, CleanName(u.name))
    ensures Queue(uploads, existing) == []
  {
    if |uploads| > 0 {
      var init := uploads[..|uploads| - 1];
      assert forall u :: u in init ==> u in uploads;
      QueueEmptyWhenKnown(init, existing);
      assert uploads[|uploads| - 1] in uploads;
    }
  }

  /** After the save loop every queued image's clean name is known: it was
      known before, or it was written under a name ending with it. */
  lemma QueuedKnownAfterSave(q: seq<Upload>, atSave: set<string>, ts: string, hexes: seq<string>, k: int)
    requires |hexes| == |q| && 0 <= k < |q|
    ensures ImageKnown(atSave + Written(ImageWrites(q, atSave, ts, hexes)), q[k].name)
  {
    var ws := ImageWrites(q, atSave, ts, hexes);
    var after := atSave + Written(ws);
    var n := q[k].name;
    if ImageKnown(atSave, n) {
      var f :| f in atSave && EndsWith(f, n);
      assert f in after;
    } else {
      var w := (ImageStoreName(ts, hexes[k], n), q[k].content);
      assert w in ws;
      var j :| 0 <= j < |ws| && ws[j] == w;
      assert w.0 in Written(ws);
      ImageStoreNameEnds(ts, hexes[k], n);
      assert w.0 in after;
    }
  }

  /** Once the queue of a preview has been saved, uploading the same images
      again queues nothing: every stored image name ends with its clean
      name. The folder may only have grown between preview and save. */
  lemma ReuploadSkipped(uploads: seq<Upload>, atPreview: set<string>, atSave: set<string>,
                        ts: string, hexes: seq<string>)
    requires atPreview <= atSave
    requires |hexes| == |Queue(uploads, atPreview)|
    ensures Queue(uploads, atSave + Written(ImageWrites(Queue(uploads, atPreview), atSave, ts, hexes))) == []
  {
    var q := Queue(uploads, atPreview);
    var after := atSave + Written(ImageWrites(q, atSave, ts, hexes));
    forall u | u in uploads ensures ImageKnown(after, CleanName(u.name)) {
      var n := CleanName(u.name);
      if ImageKnown(atPreview, n) {
        var f :| f in atPreview && EndsWith(f, n);
        assert f in after;
      } else {
        assert Cleaned(u) in q;
        var k :| 0 <= k < |q| && q[k] == Cleaned(u);
        QueuedKnownAfterSave(q, atSave, ts, hexes, k);
      }
    }
    QueueEmptyWhenKnown(uploads, after);
  }

  // ---------------------------------------------------------------------
  // Documents
  // ---------------------------------------------------------------------

  /** `name.replace(" ", "_")` */
  function DocClean(name: string): (r: string)
    ensures ' ' !in r
    ensures |r| == |name|
    ensures forall i :: 0 <= i < |name| ==> r[i] == (if name[i] == ' ' then '_' else name[i])
  {
    ReplaceCharRemoves(name, ' ', "_");
    ReplaceCharPointwise(name, ' ', '_');
    ReplaceChar(name, ' ', "_")
  }

  /** Some stored name contains `nameClean` anywhere. */
  predicate DocKnown(existing: set<string>, nameClean: string) {
    exists f :: f in existing && Contains(f, nameClean)
  }

  /** The writes of the document loop, in upload order, each under
      `timestamp_hex8_name` unless a stored name contains the clean name. */
  function DocWrites(uploads: seq<Upload>, existing: set<string>, ts: string, hexes: seq<string>)
    : (ws: seq<(string, Bytes)>)
    requires |hexes| == |uploads|
    ensures forall w :: w in ws <==>
      exists k :: 0 <= k < |uploads| && !DocKnown(existing, DocClean(uploads[k].name))
        && w == (DocStoreName(ts, hexes[k], DocClean(uploads[k].name)), uploads[k].content)
  {
    if |uploads| == 0 then []
    else
      var n := |uploads| - 1;
      var prev := DocWrites(uploads[..n], existing, ts, hexes[..n]);
      assert forall k :: 0 <= k < n ==> uploads[..n][k] == uploads[k] && hexes[..n][k] == hexes[k];
      var clean := DocClean(uploads[n].name);
      if DocKnown(existing, clean) then prev
      else prev + [(DocStoreName(ts, hexes[n], clean), uploads[n].content)]
  }

  /** One more upload adds at most its own write. */
  lemma DocWritesStep(uploads: seq<Upload>, existing: set<string>, ts: string, hexes: seq<string>, i: int)
    requires |hexes| == |uploads| && 0 <= i < |uploads|
    ensures DocWrites(uploads[..i + 1], existing, ts, hexes[..i + 1])
      == DocWrites(uploads[..i], existing, ts, hexes[..i])
         + (if DocKnown(existing, DocClean(uploads[i].name)) then []
            else [(DocStoreName(ts, hexes[i], DocClean(uploads[i].name)), uploads[i].content)])
  {
    assert uploads[..i + 1][..i] == uploads[..i] && hexes[..i + 1][..i] == hexes[..i];
  }

  /** The document loop: it saves each new document and lists its stored
      name in `anhang_dateien`, in the order of saving. */
  method SaveDocuments(folder: Folder<Bytes>, uploads: seq<Upload>, ts: string, hexes: seq<string>)
    returns (anhang: seq<string>)
    requires |hexes| == |uploads|
    modifies folder
    ensures folder.files == Applied(old(folder.files), DocWrites(uploads, old(folder.files).Keys, ts, hexes))
    ensures anhang == Names(DocWrites(uploads, old(folder.files).Keys, ts, hexes))
  {
    var existing := folder.files.Keys;
    anhang := [];
    for i := 0 to |uploads|
      invariant folder.files == Applied(old(folder.files), DocWrites(uploads[..i], existing, ts, hexes[..i]))
      invariant anhang == Names(DocWrites(uploads[..i], existing, ts, hexes[..i]))
    {
      ghost var prev := DocWrites(uploads[..i], existing, ts, hexes[..i]);
      DocWritesStep(uploads, existing, ts, hexes, i);
      var nameClean := DocClean(uploads[i].name);
      if DocKnown(existing, nameClean) {
        assert prev + [] == prev;
        continue;
      }
      var filename := DocStoreName(ts, hexes[i], nameClean);
      folder.Save(filename, uploads[i].content);
      AppliedSnoc(old(folder.files), prev, (filename, uploads[i].content));
      NamesSnoc(prev, (filename, uploads[i].content));
      anhang := anhang + [filename];
    }
    assert uploads[..|uploads|] == uploads && hexes[..|hexes|] == hexes;
  }

  /** A document saved once is skipped when uploaded again, because its
      stored name contains its clean name. */
  lemma DocReuploadSkipped(u: Upload, existing: set<string>, ts: string, hex: string)
    requires DocStoreName(ts, hex, DocClean(u.name)) in existing
    ensures DocKnown(existing, DocClean(u.name))
  {
    DocStoreNameContains(ts, hex, DocClean(u.name));
  }

  /** A stored name that ends with a space-free `tail` makes `tail` known. */
  lemma KnownByTail(pre: string, tail: string)
    requires ' ' !in tail
    ensures DocKnown({pre + tail}, DocClean(tail))
  {
    ReplaceCharNoop(tail, ' ', "_");
    ContainsTail(pre, tail);
  }

  /** The match is by substring, so an upload is also skipped when a
      different stored document merely contains its name: `a.pdf` is
      skipped once `data.pdf` is stored. */
  lemma DocSubstringSkip(ts: string, hex: string)
    ensures DocKnown({DocStoreName(ts, hex, "data.pdf")}, DocClean("a.pdf"))
  {
    var pre := ts + "_" + Hex8(hex) + "_" + "dat";
    assert DocStoreName(ts, hex, "data.pdf") == pre + "a.pdf";
    KnownByTail(pre, "a.pdf");
  }

  // ---------------------------------------------------------------------
  // The record and the table
  // ---------------------------------------------------------------------

  /** The form fields, with the date already written as `%Y-%m-%d`. */
  datatype ChemieForm = ChemieForm(titel: string, datum: string, beschreibung: string,
                                   material: string, fragen: string, arbeitsschritte: string,
                                   ziel: string, semester: string)

  /** `neuer_eintrag` */
  function Record(form: ChemieForm, anhaenge: seq<string>, wordName: string, zeit: string): Datei.Row {
    map[
      "titel" := Datei.Text(form.titel),
      "datum" := Datei.Text(form.datum),
      "beschreibung" := Datei.Text(form.beschreibung),
      "material" := Datei.Text(form.material),
      "fragen" := Datei.Text(form.fragen),
      "arbeitsschritte" := Datei.Text(form.arbeitsschritte),
      "ziel" := Datei.Text(form.ziel),
      "anhaenge" := Datei.Names(anhaenge),
      "semester" := Datei.Text(form.semester),
      "dateiname" := Datei.Text(wordName),
      "zeit" := Datei.Text(zeit)
    ]
  }

  /** The value under `chemie_eintraege`: a table, or anything else. */
  datatype Table = Frame(rows: seq<Datei.Row>) | NotAFrame

  /** `pd.concat([old, new])` for a table, else the new one-row table. */
  function AppendRecord(t: Table, row: Datei.Row): (r: Table)
    ensures r.Frame? && |r.rows| > 0 && r.rows[|r.rows| - 1] == row
    ensures t.Frame? ==> |r.rows| == |t.rows| + 1 && r.rows[..|t.rows|] == t.rows
    ensures !t.Frame? ==> r.rows == [row]
  {
    match t
    case Frame(rows) => Frame(rows + [row])
    case NotAFrame => Frame([row])
  }

  /** The session's table of chemistry entries. */
  class EntryTable {
    var value: Table

    constructor (initial: Table)
      ensures value == initial
    {
      value := initial;
    }

    method Append(row: Datei.Row)
      modifies this
      ensures value == AppendRecord(old(value), row)
    {
      value := AppendRecord(value, row);
    }
  }

  /** Why saving stopped. */
  datatype SaveError = BlankTitle

  /** The "save and export" button. A blank title stops before anything is
      written. Otherwise the queued images, the new documents, the Word file
      and the PDF are stored, and the record, whose `anhaenge` lists the new
      documents followed by the PDF, is appended to the table. The result
      holds that `anhaenge` list. */
  method SaveAndExport(form: ChemieForm, queued: seq<Upload>, docs: seq<Upload>,
                       ts: string, zeit: string, imageHexes: seq<string>, docHexes: seq<string>,
                       pdfHex: string, wordBytes: Bytes, pdfBytes: Bytes,
                       images: Folder<Bytes>, attachments: Folder<Bytes>, words: Folder<Bytes>,
                       table: EntryTable)
    returns (result: Result<seq<string>, SaveError>)
    requires |imageHexes| == |queued| && |docHexes| == |docs|
    requires images != attachments && images != words && attachments != words
    modifies images, attachments, words, table
    ensures result.Err? <==> Strip(form.titel) == ""
    ensures result.Err? ==> unchanged(images, attachments, words, table)
    ensures result.Ok? ==>
      var docWrites := DocWrites(docs, old(attachments.files).Keys, ts, docHexes);
      var pdf := PdfName(ts, pdfHex, form.titel);
      && images.files == Applied(old(images.files), ImageWrites(queued, old(images.files).Keys, ts, imageHexes))
      && attachments.files == Applied(old(attachments.files), docWrites + [(pdf, pdfBytes)])
      && words.files == old(words.files)[WordName(ts, form.titel) := wordBytes]
      && result.value == Names(docWrites) + [pdf]
      && table.value == AppendRecord(old(table.value),
                                     Record(form, result.value, WordName(ts, form.titel), zeit))
  {
    if Strip(form.titel) == "" {
      return Err(BlankTitle);
    }
    SaveImages(images, queued, ts, imageHexes);
    var anhang := SaveDocuments(attachments, docs, ts, docHexes);
    ghost var docWrites := DocWrites(docs, old(attachments.files).Keys, ts, docHexes);
    var wordName := WordName(ts, form.titel);
    words.Save(wordName, wordBytes);
    var pdf := PdfName(ts, pdfHex, form.titel);
    attachments.Save(pdf, pdfBytes);
    AppliedSnoc(old(attachments.files), docWrites, (pdf, pdfBytes));
    NamesSnoc(docWrites, (pdf, pdfBytes));
    anhang := anhang + [pdf];
    table.Append(Record(form, anhang, wordName, zeit));
    result := Ok(anhang);
  }

  /** A title, lower-cased and followed by anything, contains its own
      stripped and lower-cased form. */
  lemma TitleFindsItself(titel: string, tail: string)
    ensures Contains(Lower(titel) + tail, Lower(Strip(titel)))
  {
    var s := Strip(titel);
    var i :| StrippedAt(titel, s, i);
    var text := Lower(titel) + tail;
    LowerSlice(titel, i, i + |s|);
    assert text[i..i + |s|] == Lower(titel)[i..i + |s|];
    assert OccursAt(text, Lower(s), i);
  }

  /** A saved entry is listed by the overview page when searched for by its
      own title, when that title holds no regex metacharacter. */
  lemma SavedEntryIsListed(t: Table, form: ChemieForm, anhaenge: seq<string>, wordName: string, zeit: string)
    requires Datei.LiteralTerm(Lower(Strip(form.titel)))
    ensures Record(form, anhaenge, wordName, zeit)
      in Datei.VisibleEntries(AppendRecord(t, Record(form, anhaenge, wordName, zeit)).rows, form.titel)
  {
    var row := Record(form, anhaenge, wordName, zeit);
    var rows := AppendRecord(t, row).rows;
    assert row["titel"] == Datei.Text(form.titel) && row["datum"] == Datei.Text(form.datum);
    assert rows[|rows| - 1] == row;
    assert "titel" in Datei.Columns(rows) && "datum" in Datei.Columns(rows);
    TitleFindsItself(form.titel, " " + form.datum);
    assert Lower(form.titel) + " " + form.datum == Lower(form.titel) + (" " + form.datum);
    assert Datei.Matches(row, Lower(Strip(form.titel)));
  }
}
