/** One folder of the remote file store (a WebDAV directory such as
    `anhang_chemie/<user>`), seen as a map from file name to content. The
    pages write into it with `save`/`write_text`, delete from it, and ask
    whether a name exists. Names are relative to the folder. */
module Store {
  import opened Wrappers

  /** A file handed in through an upload widget: its name and its bytes. */
  datatype Upload = Upload(name: string, content: Bytes)

  /** The names a sequence of writes touches. */
  function Written<T>(writes: seq<(string, T)>): set<string> {
    set k | 0 <= k < |writes| :: writes[k].0
  }

  /** The names of a sequence of writes, in order, repeats kept; also the
      keys of a dictionary kept as pairs in insertion order. */
  function Names<T>(pairs: seq<(string, T)>): (r: seq<string>)
    ensures |r| == |pairs| && forall i :: 0 <= i < |pairs| ==> r[i] == pairs[i].0
    ensures forall n :: n in r <==> n in Written(pairs)
  {
    seq(|pairs|, i requires 0 <= i < |pairs| => pairs[i].0)
  }

  lemma NamesSnoc<T>(pairs: seq<(string, T)>, w: (string, T))
    ensures Names(pairs + [w]) == Names(pairs) + [w.0]
  {
  }

  /** The folder contents after the writes, done one after the other. */
  function Applied<T>(files: map<string, T>, writes: seq<(string, T)>): (r: map<string, T>)
    ensures r.Keys == files.Keys + Written(writes)
    ensures forall n :: n in files && n !in Written(writes) ==> r[n] == files[n]
    ensures |writes| > 0 ==> r[writes[|writes| - 1].0] == writes[|writes| - 1].1
  {
    if |writes| == 0 then files
    else
      var last := writes[|writes| - 1];
      var init := writes[..|writes| - 1];
      assert Written(writes) == Written(init) + {last.0} by {
        forall n | n in Written(writes) ensures n in Written(init) + {last.0} {
          var k :| 0 <= k < |writes| && writes[k].0 == n;
          if k < |writes| - 1 { assert init[k].0 == n; }
        }
        forall n | n in Written(init) ensures n in Written(writes) {
          var k :| 0 <= k < |init| && init[k].0 == n;
          assert writes[k].0 == n;
        }
      }
      Applied(files, init)[last.0 := last.1]
  }

  /** One more write lands on top of the earlier ones. */
  lemma AppliedSnoc<T>(files: map<string, T>, writes: seq<(string, T)>, w: (string, T))
    ensures Applied(files, writes + [w]) == Applied(files, writes)[w.0 := w.1]
  {
    assert (writes + [w])[..|writes|] == writes;
  }

  class Folder<T> {
    var files: map<string, T>

    constructor (initial: map<string, T>)
      ensures files == initial
    {
      files := initial;
    }

    predicate Exists(name: string)
      reads this
    {
      name in files
    }

    /** Create or overwrite one file. */
    method Save(name: string, content: T)
      modifies this
      ensures files == old(files)[name := content]
    {
      files := files[name := content];
    }

    /** Delete one file; a name that is not there raises not-found, which
        is reported as `ok == false` and changes nothing. */
    method Delete(name: string) returns (ok: bool)
      modifies this
      ensures ok == (name in old(files))
      ensures files == old(files) - {name}
    {
      ok := name in files;
      if ok {
        files := files - {name};
      }
    }
  }
}
