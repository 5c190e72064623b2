/**
 * The file writer. Opening a file for writing truncates it, and each line is
 * then written as it is, so a file ends up holding its lines joined with
 * nothing added between them. The file system is a map from file name to
 * content.
 */
module Output {
  import opened Sections

  /** The lines written one after another. */
  function Concat(lines: seq<string>): string {
    if lines == [] then [] else Concat(lines[..|lines| - 1]) + lines[|lines| - 1]
  }

  /** The files after the writes `ws`, in order, starting from `files`; each write replaces the whole file. */
  function ApplyWrites(files: map<string, string>, ws: seq<Write>): (r: map<string, string>)
    ensures files.Keys <= r.Keys
    decreases |ws|
  {
    if ws == [] then files
    else ApplyWrites(files[ws[0].name := Concat(ws[0].lines)], ws[1..])
  }

  lemma {:induction false} ApplyWritesSnoc(files: map<string, string>, ws: seq<Write>, w: Write)
    ensures ApplyWrites(files, ws + [w]) == ApplyWrites(files, ws)[w.name := Concat(w.lines)]
    decreases |ws|
  {
    if ws == [] {
      assert ([] + [w])[1..] == [];
    } else {
      assert (ws + [w])[1..] == ws[1..] + [w];
      ApplyWritesSnoc(files[ws[0].name := Concat(ws[0].lines)], ws[1..], w);
    }
  }

  /**
   * The files written are exactly the names written; every other file keeps
   * what it held.
   */
  lemma {:induction false} ApplyWritesFrame(files: map<string, string>, ws: seq<Write>)
    ensures ApplyWrites(files, ws).Keys == files.Keys + set i | 0 <= i < |ws| :: ws[i].name
    ensures forall f :: f in files && f !in Names(ws) ==> ApplyWrites(files, ws)[f] == files[f]
    decreases |ws|
  {
    if ws != [] {
      var files' := files[ws[0].name := Concat(ws[0].lines)];
      ApplyWritesFrame(files', ws[1..]);
      var tail := set i | 0 <= i < |ws[1..]| :: ws[1..][i].name;
      var all := set i | 0 <= i < |ws| :: ws[i].name;
      assert all == {ws[0].name} + tail by {
        forall f | f in all ensures f in {ws[0].name} + tail {
          var i :| 0 <= i < |ws| && ws[i].name == f;
          if i > 0 { assert ws[1..][i - 1].name == f; }
        }
        forall f | f in tail ensures f in all {
          var i :| 0 <= i < |ws[1..]| && ws[1..][i].name == f;
          assert ws[i + 1].name == f;
        }
      }
      assert Names(ws) == [ws[0].name] + Names(ws[1..]);
    }
  }

  /**
   * Writes truncate: the content of a file is what its last write gave it,
   * whatever earlier writes to the same name held.
   */
  lemma {:induction false} LastWriteWins(files: map<string, string>, before: seq<Write>, w: Write, after: seq<Write>)
    requires w.name !in Names(after)
    ensures w.name in ApplyWrites(files, before + [w] + after)
    ensures ApplyWrites(files, before + [w] + after)[w.name] == Concat(w.lines)
    decreases |before|
  {
    if before == [] {
      assert before + [w] + after == [w] + after;
      FirstWriteWins(files, w, after);
    } else {
      var ws := before + [w] + after;
      var files' := files[before[0].name := Concat(before[0].lines)];
      assert ws[0] == before[0] && ws[1..] == before[1..] + [w] + after;
      assert ApplyWrites(files, ws) == ApplyWrites(files', ws[1..]);
      LastWriteWins(files', before[1..], w, after);
    }
  }

  /** The base case of `LastWriteWins`: a write that no later write repeats decides its file. */
  lemma FirstWriteWins(files: map<string, string>, w: Write, after: seq<Write>)
    requires w.name !in Names(after)
    ensures w.name in ApplyWrites(files, [w] + after)
    ensures ApplyWrites(files, [w] + after)[w.name] == Concat(w.lines)
  {
    assert ([w] + after)[0] == w && ([w] + after)[1..] == after;
    ApplyWritesFrame(files[w.name := Concat(w.lines)], after);
  }

  /**
   * The file system that the program writes to. `written` records, in order,
   * every call of `WriteToFile` made on it.
   */
  class FileStore {
    var files: map<string, string>
    ghost var written: seq<Write>

    constructor (initial: map<string, string>)
      ensures files == initial && written == []
    {
      files := initial;
      written := [];
    }

    /** Opens `filename` for writing, truncating it, and writes each line in turn. */
    method WriteToFile(filename: string, lines: seq<string>)
      modifies this
      ensures files == old(files)[filename := Concat(lines)]
      ensures written == old(written) + [Write(filename, lines)]
    {
      written := written + [Write(filename, lines)];
      files := files[filename := []];
      var i := 0;
      while i < |lines|
        invariant 0 <= i <= |lines|
        invariant files == old(files)[filename := Concat(lines[..i])]
        invariant written == old(written) + [Write(filename, lines)]
      {
        assert lines[..i + 1][..i] == lines[..i];
        files := files[filename := files[filename] + lines[i]];
        i := i + 1;
      }
      assert lines[..|lines|] == lines;
    }
  }
}
