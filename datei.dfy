/** The subject overview page (`pages/01_Datei.py`): it picks the dataset of
    the chosen subject, refuses tables without `titel`/`datum`, filters the
    rows by a search term, and for each row offers the Word file and every
    attachment for download. Attachments are read from the store with up to
    three attempts each, because a file written a moment ago may not be
    visible yet. */
module Datei {
  import opened Wrappers
  import opened Text
  import ListLiteral

  // ---------------------------------------------------------------------
  // Subject keys and the folders and datasets that belong to them
  // ---------------------------------------------------------------------

  const Subjects: set<string> := {"chemie", "haematologie", "klinische chemie"}

  /** `st.session_state.get("fach", "").lower().strip()` */
  function SubjectKey(raw: string): (key: string)
    ensures key == "" || (!IsSpace(key[0]) && !IsSpace(key[|key| - 1]))
    ensures Lower(key) == key
  {
    LowerThenStrip(raw);
    Strip(Lower(raw))
  }

  /** What is left after lower-casing and stripping is already lower case. */
  lemma LowerThenStrip(raw: string)
    ensures Lower(Strip(Lower(raw))) == Strip(Lower(raw))
  {
    var l := Lower(raw);
    var i :| StrippedAt(l, Strip(l), i);
    LowerSlice(raw, i, i + |Strip(l)|);
    LowerIdempotent(raw[i..i + |Strip(l)|]);
  }

  /** Whatever the case of the stored subject and whatever whitespace
      surrounds it, the page finds the subject. */
  lemma SubjectKeyOfPadded(a: string, m: string, b: string)
    requires forall k :: 0 <= k < |a| ==> IsSpace(a[k])
    requires forall k :: 0 <= k < |b| ==> IsSpace(b[k])
    requires Lower(m) in Subjects
    ensures SubjectKey(a + m + b) == Lower(m)
    ensures SubjectName(SubjectKey(a + m + b)) != "Unbekannt"
  {
    var key := Lower(m);
    assert Lower(a + m + b) == a + key + b;
    assert key[0] in "chk" && key[|key| - 1] == 'e';
    StripAround(a, key, b);
  }

  /** `fach_namen.get(fach_key, "Unbekannt")` */
  function SubjectName(key: string): (name: string)
    ensures name == "Unbekannt" <==> key !in Subjects
  {
    if key == "chemie" then "Chemie"
    else if key == "haematologie" then "H\U{E4}matologie"
    else if key == "klinische chemie" then "Klinische Chemie"
    else "Unbekannt"
  }

  /** The page the "new entry" button opens: `seiten.get(fach_key, "Start.py")`. */
  function NewEntryPage(key: string): (page: string)
    ensures page == "Start.py" <==> key !in Subjects
    ensures key in Subjects ==> StartsWith(page, "pages/")
  {
    if key == "haematologie" then "pages/02_Haematologie.py"
    else if key == "klinische chemie" then "pages/04_Klinische Chemie.py"
    else if key == "chemie" then "pages/03_Chemie.py"
    else "Start.py"
  }

  /** The Word folder `f"{ordner_pfade.get(fach_key)}/{username}"`; for an
      unknown key the lookup gives `None`, which the f-string writes out. */
  function WordFolder(key: string, user: string): (path: string)
    ensures EndsWith(path, "/" + user)
    ensures key in Subjects <==> StartsWith(path, "word_")
  {
    var folder :=
      if key == "chemie" then "word_chemie"
      else if key == "haematologie" then "word_haematologie"
      else if key == "klinische chemie" then "word_klinische_chemie"
      else "None";
    var path := folder + "/" + user;
    assert path[0] == folder[0];
    assert path == folder + ("/" + user);
    assert folder != "None" ==> path[..5] == folder[..5] == "word_";
    path
  }

  /** Where a subject's entries live: the session key, the CSV file and the
      attachment folder. */
  datatype Dataset = Dataset(sessionKey: string, csvName: string, attachmentFolder: string)

  function DatasetFor(key: string, user: string): (d: Option<Dataset>)
    ensures d.None? <==> key !in Subjects
    ensures d.Some? ==> EndsWith(d.value.attachmentFolder, "/" + user)
    ensures d.Some? ==> EndsWith(d.value.csvName, ".csv")
  {
    if key == "chemie" then
      Some(Dataset("chemie_eintraege", "data_chemie.csv", "anhang_chemie/" + user))
    else if key == "klinische chemie" then
      Some(Dataset("klinische_eintraege", "data_klinische_chemie_" + user + ".csv",
                   "anhang_klinische_chemie/" + user))
    else if key == "haematologie" then
      Some(Dataset("haematologie_eintraege", "data_haematologie_" + user + ".csv",
                   "anhang_haematologie/" + user))
    else None
  }

  // ---------------------------------------------------------------------
  // Tables
  // ---------------------------------------------------------------------

  /** One cell of a pandas table: text, a list of names (when the table was
      built in this session), or NaN (a column this row does not have). */
  datatype Cell = Text(s: string) | Names(items: seq<string>) | Null

  /** A row; a column missing from the map holds NaN. */
  type Row = map<string, Cell>

  /** The columns of `pd.DataFrame(rows)`: every key any row has. */
  function Columns(rows: seq<Row>): (cols: set<string>)
    ensures forall c :: c in cols <==> exists i :: 0 <= i < |rows| && c in rows[i]
  {
    if |rows| == 0 then {}
    else
      var rest := Columns(rows[1..]);
      assert forall c :: c in rest <==> exists i :: 1 <= i < |rows| && c in rows[i] by {
        forall c | c in rest ensures exists i :: 1 <= i < |rows| && c in rows[i] {
          var i :| 0 <= i < |rows[1..]| && c in rows[1..][i];
          assert c in rows[i + 1];
        }
        forall c | (exists i :: 1 <= i < |rows| && c in rows[i]) ensures c in rest {
          var i :| 1 <= i < |rows| && c in rows[i];
          assert c in rows[1..][i - 1];
        }
      }
      rows[0].Keys + rest
  }

  function CellAt(row: Row, col: string): Cell {
    if col in row then row[col] else Null
  }

  /** `str(value)` as `.astype(str)` writes it. */
  function CellText(c: Cell): string {
    match c
    case Text(s) => s
    case Names(xs) => ListLiteral.Repr(xs)
    case Null => "nan"
  }

  /** The page shows nothing for an empty table or one without both the
      `titel` and the `datum` column. */
  predicate HasEntries(rows: seq<Row>) {
    |rows| > 0 && "titel" in Columns(rows) && "datum" in Columns(rows)
  }

  // ---------------------------------------------------------------------
  // Search
  // ---------------------------------------------------------------------

  /** `titel.str.lower() + " " + datum.astype(str)`; NaN when the title is
      not text. */
  function SearchText(row: Row): Option<string> {
    match CellAt(row, "titel")
    case Text(t) => Some(Lower(t) + " " + CellText(CellAt(row, "datum")))
    case _ => None
  }

  /** `suchtext.str.contains(term, na=False)` */
  predicate Matches(row: Row, term: string) {
    SearchText(row).Some? && Contains(SearchText(row).value, term)
  }

  function FilterRows(rows: seq<Row>, term: string): (r: seq<Row>)
    ensures |r| <= |rows|
    ensures forall row :: row in r <==> row in rows && Matches(row, term)
  {
    if |rows| == 0 then []
    else
      var rest := FilterRows(rows[1..], term);
      assert forall row :: row in rows <==> row == rows[0] || row in rows[1..] by {
        assert rows == [rows[0]] + rows[1..];
      }
      if Matches(rows[0], term) then [rows[0]] + rest else rest
  }

  /** Filtering keeps the order of the rows: it distributes over
      concatenation. */
  lemma {:induction false} FilterRowsAppend(a: seq<Row>, b: seq<Row>, term: string)
    ensures FilterRows(a + b, term) == FilterRows(a, term) + FilterRows(b, term)
  {
    if |a| == 0 {
      assert a + b == b;
    } else {
      assert (a + b)[0] == a[0] && (a + b)[1..] == a[1..] + b;
      FilterRowsAppend(a[1..], b, term);
    }
  }

  /** The search box: the input is stripped and lower-cased; an empty term
      keeps every row, otherwise exactly the matching rows stay. */
  function Search(rows: seq<Row>, input: string): (r: seq<Row>)
    ensures Lower(Strip(input)) == "" ==> r == rows
    ensures Lower(Strip(input)) != "" ==>
      forall row :: row in r <==> row in rows && Matches(row, Lower(Strip(input)))
  {
    var term := Lower(Strip(input));
    if term == "" then rows else FilterRows(rows, term)
  }

  /** A search term without the regex metacharacters that keep a pattern
      from matching its own text (a `.` still matches itself), so that
      pandas' regex reading of it finds at least the rows the substring
      test finds. */
  predicate LiteralTerm(term: string) {
    forall i :: 0 <= i < |term| ==> term[i] !in "^$*+?{}[]\\|()"
  }

  /** The rows the page lists for a table and a search input. */
  function VisibleEntries(rows: seq<Row>, input: string): (r: seq<Row>)
    ensures !HasEntries(rows) ==> r == []
    ensures HasEntries(rows) ==> r == Search(rows, input)
    ensures forall row :: row in r ==> row in rows
  {
    if HasEntries(rows) then Search(rows, input) else []
  }

  /** A row without a text title never survives a non-empty search. */
  lemma UntitledRowsNeverMatch(rows: seq<Row>, input: string, row: Row)
    requires Lower(Strip(input)) != ""
    requires !CellAt(row, "titel").Text?
    ensures row !in Search(rows, input)
  {
  }

  // ---------------------------------------------------------------------
  // Attachment names
  // ---------------------------------------------------------------------

  /** Why the attachment list of a row cannot be used: a NaN cell is not a
      list, and iterating over it raises. */
  datatype DecodeError = NotIterable

  /** `row.get("anhaenge", [])`, with a text cell passed through
      `ast.literal_eval`, whose failure gives the empty list. */
  function DecodeAnhaenge(row: Row, columns: set<string>): (r: Result<seq<string>, DecodeError>)
    ensures "anhaenge" !in columns ==> r == Ok([])
    ensures r.Err? <==> "anhaenge" in columns && CellAt(row, "anhaenge").Null?
    ensures ("anhaenge" in columns && CellAt(row, "anhaenge").Text?
             && ListLiteral.Parse(CellAt(row, "anhaenge").s).None?) ==> r == Ok([])
  {
    if "anhaenge" !in columns then Ok([])
    else
      match CellAt(row, "anhaenge")
      case Names(xs) => Ok(xs)
      case Text(s) =>
        (match ListLiteral.Parse(s)
         case Some(xs) => Ok(xs)
         case None => Ok([]))
      case Null => Err(NotIterable)
  }

  /** A list that went through the CSV file as `str(list)` decodes to the
      same names. */
  lemma DecodeStoredList(row: Row, columns: set<string>, xs: seq<string>)
    requires "anhaenge" in columns && "anhaenge" in row
    requires row["anhaenge"] == Text(ListLiteral.Repr(xs))
    requires ListLiteral.PlainNames(xs)
    ensures DecodeAnhaenge(row, columns) == Ok(xs)
  {
    ListLiteral.ParseRepr(xs);
  }

  predicate Distinct(xs: seq<string>) {
    forall i, j :: 0 <= i < j < |xs| ==> xs[i] != xs[j]
  }

  /** `list(dict.fromkeys(xs))`: every name once, and no name lost. */
  function Dedup(xs: seq<string>): (r: seq<string>)
    ensures Distinct(r)
    ensures forall x :: x in r <==> x in xs
    ensures |r| <= |xs|
  {
    if |xs| == 0 then []
    else
      var init := xs[..|xs| - 1];
      var last := xs[|xs| - 1];
      var p := Dedup(init);
      assert xs == init + [last];
      if last in p then p else p + [last]
  }

  /** The index at which `x` first occurs in `xs`. */
  function FirstIndex(xs: seq<string>, x: string): (k: nat)
    requires x in xs
    ensures k < |xs| && xs[k] == x && x !in xs[..k]
  {
    if xs[0] == x then 0
    else
      var k := FirstIndex(xs[1..], x);
      assert xs[..k + 1] == [xs[0]] + xs[1..][..k];
      k + 1
  }

  lemma FirstIndexUnique(xs: seq<string>, x: string, k: nat)
    requires k < |xs| && xs[k] == x && x !in xs[..k]
    ensures FirstIndex(xs, x) == k
  {
    var f := FirstIndex(xs, x);
    assert forall j :: 0 <= j < k ==> xs[..k][j] == xs[j];
    assert forall j :: 0 <= j < f ==> xs[..f][j] == xs[j];
  }

  lemma FirstIndexPrefix(xs: seq<string>, m: nat, x: string)
    requires m <= |xs| && x in xs[..m]
    ensures FirstIndex(xs, x) == FirstIndex(xs[..m], x)
  {
    var k := FirstIndex(xs[..m], x);
    assert xs[..m][..k] == xs[..k];
    FirstIndexUnique(xs, x, k);
  }

  /** The names come out in the order of their first occurrence. */
  lemma {:induction false} DedupFirstSeenOrder(xs: seq<string>)
    ensures forall i, j :: 0 <= i < j < |Dedup(xs)| ==>
      FirstIndex(xs, Dedup(xs)[i]) < FirstIndex(xs, Dedup(xs)[j])
  {
    if |xs| > 0 {
      var n := |xs|;
      var init := xs[..n - 1];
      var last := xs[n - 1];
      var p := Dedup(init);
      var r := Dedup(xs);
      assert xs == init + [last];
      DedupFirstSeenOrder(init);
      forall i | 0 <= i < |p| ensures FirstIndex(xs, p[i]) == FirstIndex(init, p[i]) {
        FirstIndexPrefix(xs, n - 1, p[i]);
      }
      if last !in p {
        assert last !in init;
        FirstIndexUnique(xs, last, n - 1);
        assert r == p + [last];
      }
    }
  }

  /** A list without repeated names is left as it is. */
  lemma {:induction false} DedupOfDistinct(xs: seq<string>)
    requires Distinct(xs)
    ensures Dedup(xs) == xs
  {
    if |xs| > 0 {
      var init := xs[..|xs| - 1];
      assert Distinct(init);
      DedupOfDistinct(init);
      assert xs[|xs| - 1] !in init;
      assert xs == init + [xs[|xs| - 1]];
    }
  }

  // ---------------------------------------------------------------------
  // Reading attachments with retry
  // ---------------------------------------------------------------------

  const MaxAttempts: nat := 3

  datatype ReadOutcome = Read(data: Bytes) | NotFound

  /** Attempt `k` (0-based) to read `name`: a file that is not in the store
      is not found, and `miss` says which attempts on a stored file still
      raise not-found because the store has not caught up. */
  function Attempt(store: map<string, Bytes>, miss: (string, nat) -> bool, name: string, k: nat): ReadOutcome {
    if name in store && !miss(name, k) then Read(store[name]) else NotFound
  }

  /** Some attempt within the budget finds the file. */
  predicate Reachable(store: map<string, Bytes>, miss: (string, nat) -> bool, name: string) {
    name in store && exists k: nat | k < MaxAttempts :: !miss(name, k)
  }

  /** The `for _ in range(3)` loop: read, stop at the first success, sleep
      and try again on not-found. `calls` counts the read calls made. */
  method ReadWithRetry(store: map<string, Bytes>, miss: (string, nat) -> bool, name: string)
    returns (fileData: Option<Bytes>, calls: nat)
    ensures 1 <= calls <= MaxAttempts
    ensures forall k: nat :: k < calls - 1 ==> Attempt(store, miss, name, k).NotFound?
    ensures fileData.Some? ==> Attempt(store, miss, name, calls - 1) == Read(fileData.value)
    ensures fileData.None? ==> calls == MaxAttempts && Attempt(store, miss, name, calls - 1).NotFound?
    ensures fileData.Some? <==> Reachable(store, miss, name)
    ensures fileData.Some? ==> fileData.value == store[name]
  {
    fileData := None;
    calls := 0;
    var i: nat := 0;
    while i < MaxAttempts
      invariant i <= MaxAttempts && calls == i
      invariant fileData.None?
      invariant forall k: nat :: k < i ==> Attempt(store, miss, name, k).NotFound?
    {
      calls := calls + 1;
      var outcome := Attempt(store, miss, name, i);
      if outcome.Read? {
        fileData := Some(outcome.data);
        break;
      }
      i := i + 1;
    }
    if fileData.None? {
      forall k: nat | k < MaxAttempts ensures name in store ==> miss(name, k) {
        assert Attempt(store, miss, name, k).NotFound?;
      }
    }
  }

  /** What the page shows for one attachment name. */
  datatype Shown = Download(name: string, data: Bytes) | MissingNotice(name: string) {
    function Name(): string {
      match this
      case Download(n, _) => n
      case MissingNotice(n) => n
    }
  }

  /** The outcome for one name: a download button when some attempt reads
      it and its content is non-empty, otherwise "not found". Empty content
      counts as not found, because the test is `if file_data`. */
  function Expected(store: map<string, Bytes>, miss: (string, nat) -> bool, name: string): Shown {
    if Reachable(store, miss, name) && |store[name]| > 0 then Download(name, store[name])
    else MissingNotice(name)
  }

  /** The attachment loop of one row: one outcome per distinct name, in
      first-seen order; a missing name does not stop the others. */
  method ShowAttachments(anhaenge: seq<string>, store: map<string, Bytes>, miss: (string, nat) -> bool)
    returns (shown: seq<Shown>)
    ensures |shown| == |Dedup(anhaenge)|
    ensures forall i :: 0 <= i < |shown| ==> shown[i] == Expected(store, miss, Dedup(anhaenge)[i])
  {
    var names := Dedup(anhaenge);
    shown := [];
    var i := 0;
    while i < |names|
      invariant i <= |names| && |shown| == i
      invariant forall j :: 0 <= j < i ==> shown[j] == Expected(store, miss, names[j])
    {
      var name := names[i];
      var fileData, _ := ReadWithRetry(store, miss, name);
      if fileData.Some? && |fileData.value| > 0 {
        shown := shown + [Download(name, fileData.value)];
      } else {
        shown := shown + [MissingNotice(name)];
      }
      i := i + 1;
    }
  }

  /** The Word button of a row: no button without a `dateiname`, else the
      file, or a warning when its single read raises (there is no retry
      here, so this is attempt 0 of `miss`). A NaN name is truthy, so its
      read is attempted and fails. */
  datatype WordLink = NoWord | WordFile(name: string, data: Bytes) | WordMissing

  function WordButton(row: Row, columns: set<string>, store: map<string, Bytes>, miss: (string, nat) -> bool)
    : (w: WordLink)
    ensures w.WordFile? <==>
      && "dateiname" in columns && CellAt(row, "dateiname").Text?
      && CellAt(row, "dateiname").s != ""
      && Attempt(store, miss, CellAt(row, "dateiname").s, 0).Read?
    ensures w.WordFile? ==> CellAt(row, "dateiname") == Text(w.name) && w.data == store[w.name]
    ensures w.NoWord? <==>
      "dateiname" !in columns || CellAt(row, "dateiname") == Text("") || CellAt(row, "dateiname") == Names([])
    ensures "dateiname" in columns && CellAt(row, "dateiname").Null? ==> w.WordMissing?
  {
    if "dateiname" !in columns then NoWord
    else
      match CellAt(row, "dateiname")
      case Text(n) =>
        if n == "" then NoWord
        else (match Attempt(store, miss, n, 0) case Read(data) => WordFile(n, data) case NotFound => WordMissing)
      case Names(xs) => if xs == [] then NoWord else WordMissing
      case Null => WordMissing
  }

  /** What one listed row offers: its Word button and its attachments, or
      the error that ends the page when the attachment cell is NaN. */
  method ShowRow(row: Row, columns: set<string>, wordStore: map<string, Bytes>, wordMiss: (string, nat) -> bool,
                 attachmentStore: map<string, Bytes>, miss: (string, nat) -> bool)
    returns (word: WordLink, attachments: Result<seq<Shown>, DecodeError>)
    ensures word == WordButton(row, columns, wordStore, wordMiss)
    ensures attachments.Err? <==> DecodeAnhaenge(row, columns).Err?
    ensures attachments.Ok? ==>
      var names := Dedup(DecodeAnhaenge(row, columns).value);
      |attachments.value| == |names|
      && forall i :: 0 <= i < |names| ==>
           attachments.value[i] == Expected(attachmentStore, miss, names[i])
  {
    word := WordButton(row, columns, wordStore, wordMiss);
    var decoded := DecodeAnhaenge(row, columns);
    if decoded.Err? {
      attachments := Err(decoded.error);
    } else if decoded.value == [] {
      attachments := Ok([]);
    } else {
      var shown := ShowAttachments(decoded.value, attachmentStore, miss);
      attachments := Ok(shown);
    }
  }
}
