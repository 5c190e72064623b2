/**
 * The splitting done by the main loop, stripped of input and output: a
 * sequence of input lines becomes the ordered sequence of file writes the
 * loop performs. A header line closes the section that is open (if any)
 * and opens a new one; every other line is kept, unchanged, in the
 * pending lines. Before the first header nothing is open, so the first
 * header writes nothing and keeps the pending lines: they lead the first
 * file. At the end of input the open section, if any, is written.
 */
module Sections {
  import opened Wrappers

  /**
   * How a line is recognised as a header: `Some(name)` for a header naming
   * `name`, `None` for any other line. The program uses `Header.MatchHeader`;
   * the splitting does not depend on how headers are recognised.
   */
  type Recognizer = string -> Option<string>

  /** One call of the file writer: the file name and the lines it receives. */
  datatype Write = Write(name: string, lines: seq<string>)

  /** The names of the header lines, in input order. */
  function HeaderNames(header: Recognizer, lines: seq<string>): (names: seq<string>)
    ensures |names| <= |lines|
  {
    if lines == [] then []
    else
      match header(lines[0])
      case Some(n) => [n] + HeaderNames(header, lines[1..])
      case None => HeaderNames(header, lines[1..])
  }

  /** The lines that are not headers, in input order. */
  function Body(header: Recognizer, lines: seq<string>): (body: seq<string>)
    ensures |body| <= |lines|
    ensures forall i :: 0 <= i < |body| ==> header(body[i]).None?
  {
    if lines == [] then []
    else if header(lines[0]).Some? then Body(header, lines[1..])
    else [lines[0]] + Body(header, lines[1..])
  }

  function Names(ws: seq<Write>): (names: seq<string>)
    ensures |names| == |ws|
    ensures forall i :: 0 <= i < |ws| ==> names[i] == ws[i].name
  {
    if ws == [] then [] else [ws[0].name] + Names(ws[1..])
  }

  /** All written lines, in write order. */
  function Flatten(ws: seq<Write>): seq<string> {
    if ws == [] then [] else ws[0].lines + Flatten(ws[1..])
  }

  /**
   * The writes produced from `lines` when `current` is the open section (if
   * any) and `pending` the lines gathered for it so far.
   */
  function SplitFrom(header: Recognizer, lines: seq<string>, current: Option<string>, pending: seq<string>): (ws: seq<Write>)
    ensures |ws| == |HeaderNames(header, lines)| + (if current.Some? then 1 else 0)
  {
    if lines == [] then
      if current.Some? then [Write(current.value, pending)] else []
    else
      match header(lines[0])
      case Some(n) =>
        if current.Some? then [Write(current.value, pending)] + SplitFrom(header, lines[1..], Some(n), [])
        else SplitFrom(header, lines[1..], Some(n), pending)
      case None => SplitFrom(header, lines[1..], current, pending + [lines[0]])
  }

  /** The writes of the whole input. */
  function Split(header: Recognizer, lines: seq<string>): (ws: seq<Write>)
    ensures |ws| == |HeaderNames(header, lines)|
  {
    SplitFrom(header, lines, None, [])
  }

  /** Gives the first write `prefix` as its leading lines. */
  function PrependToFirst(prefix: seq<string>, ws: seq<Write>): (r: seq<Write>)
    requires ws != []
    ensures |r| == |ws| && r[0].name == ws[0].name && r[1..] == ws[1..]
  {
    [Write(ws[0].name, prefix + ws[0].lines)] + ws[1..]
  }

  lemma {:induction false} SplitFromNames(header: Recognizer, lines: seq<string>, current: Option<string>, pending: seq<string>)
    ensures Names(SplitFrom(header, lines, current, pending))
         == (if current.Some? then [current.value] else []) + HeaderNames(header, lines)
    decreases |lines|
  {
    if lines != [] {
      match header(lines[0])
      case Some(n) => SplitFromNames(header, lines[1..], Some(n), if current.Some? then [] else pending);
      case None => SplitFromNames(header, lines[1..], current, pending + [lines[0]]);
    }
  }

  /**
   * One write per header, in header order: the names written are exactly the
   * header names, so there are as many writes as header lines.
   */
  lemma SplitNames(header: Recognizer, lines: seq<string>)
    ensures Names(Split(header, lines)) == HeaderNames(header, lines)
    ensures |Split(header, lines)| == |HeaderNames(header, lines)|
  {
    SplitFromNames(header, lines, None, []);
  }

  /** Input without a header line produces no write at all. */
  lemma SplitWithoutHeaders(header: Recognizer, lines: seq<string>)
    requires HeaderNames(header, lines) == []
    ensures Split(header, lines) == []
  {
    SplitNames(header, lines);
  }

  lemma {:induction false} SplitFromFlatten(header: Recognizer, lines: seq<string>, current: Option<string>, pending: seq<string>)
    requires current.Some? || HeaderNames(header, lines) != []
    ensures Flatten(SplitFrom(header, lines, current, pending)) == pending + Body(header, lines)
    decreases |lines|
  {
    if lines == [] {
      assert Flatten([Write(current.value, pending)]) == pending + Flatten([]);
    } else {
      match header(lines[0])
      case Some(n) =>
        SplitFromFlatten(header, lines[1..], Some(n), if current.Some? then [] else pending);
        if current.Some? {
          var ws := [Write(current.value, pending)] + SplitFrom(header, lines[1..], Some(n), []);
          assert ws[1..] == SplitFrom(header, lines[1..], Some(n), []);
        }
      case None =>
        SplitFromFlatten(header, lines[1..], current, pending + [lines[0]]);
    }
  }

  /**
   * No loss and no duplication: once there is a header, the written lines,
   * in write order, are exactly the non-header input lines.
   */
  lemma SplitLosesNothing(header: Recognizer, lines: seq<string>)
    requires HeaderNames(header, lines) != []
    ensures Flatten(Split(header, lines)) == Body(header, lines)
  {
    SplitFromFlatten(header, lines, None, []);
  }

  lemma {:induction false} SplitFromKeepsNoHeader(header: Recognizer, lines: seq<string>, current: Option<string>, pending: seq<string>)
    requires forall j :: 0 <= j < |pending| ==> header(pending[j]).None?
    ensures forall w, l :: w in SplitFrom(header, lines, current, pending) && l in w.lines ==> header(l).None?
    decreases |lines|
  {
    if lines != [] {
      match header(lines[0])
      case Some(n) => SplitFromKeepsNoHeader(header, lines[1..], Some(n), if current.Some? then [] else pending);
      case None => SplitFromKeepsNoHeader(header, lines[1..], current, pending + [lines[0]]);
    }
  }

  /** A header line never appears in any written content. */
  lemma SplitWritesNoHeader(header: Recognizer, lines: seq<string>)
    ensures forall w, l :: w in Split(header, lines) && l in w.lines ==> header(l).None?
  {
    SplitFromKeepsNoHeader(header, lines, None, []);
  }

  /** Lines without a header only add to the pending lines. */
  lemma {:induction false} SplitFromGathers(header: Recognizer, xs: seq<string>, ys: seq<string>, current: Option<string>, pending: seq<string>)
    requires HeaderNames(header, xs) == []
    ensures SplitFrom(header, xs + ys, current, pending) == SplitFrom(header, ys, current, pending + xs)
    decreases |xs|
  {
    if xs == [] {
      assert xs + ys == ys && pending + xs == pending;
    } else {
      assert (xs + ys)[1..] == xs[1..] + ys;
      assert pending + [xs[0]] + xs[1..] == pending + xs;
      SplitFromGathers(header, xs[1..], ys, current, pending + [xs[0]]);
    }
  }

  /** With a section open, pending lines end up at the start of that section's write. */
  lemma {:induction false} SplitFromPending(header: Recognizer, lines: seq<string>, name: string, pending: seq<string>)
    ensures SplitFrom(header, lines, Some(name), pending)
         == PrependToFirst(pending, SplitFrom(header, lines, Some(name), []))
    decreases |lines|
  {
    if lines == [] {
      assert pending + [] == pending;
    } else {
      match header(lines[0])
      case Some(n) =>
        var rest := SplitFrom(header, lines[1..], Some(n), []);
        assert ([Write(name, [])] + rest)[1..] == rest && pending + [] == pending;
      case None =>
        var x := lines[0];
        var rest := SplitFrom(header, lines[1..], Some(name), []);
        SplitFromPending(header, lines[1..], name, pending + [x]);
        SplitFromPending(header, lines[1..], name, [x]);
        var once := PrependToFirst([x], rest);
        assert [] + [x] == [x];
        assert SplitFrom(header, lines, Some(name), []) == SplitFrom(header, lines[1..], Some(name), [x]) == once;
        assert pending + [x] + rest[0].lines == pending + once[0].lines;
        assert PrependToFirst(pending, once) == PrependToFirst(pending + [x], rest);
    }
  }

  /** A header followed by lines without a header is written as one file holding exactly those lines. */
  lemma SplitSection(header: Recognizer, h: string, body: seq<string>)
    requires header(h).Some? && HeaderNames(header, body) == []
    ensures Split(header, [h] + body) == [Write(header(h).value, body)]
  {
    var n := header(h).value;
    assert ([h] + body)[1..] == body && body + [] == body && [] + body == body;
    SplitFromGathers(header, body, [], Some(n), []);
  }

  /**
   * Preamble lines are not dropped: lines before the first header lead the
   * content of the first file, and the rest is as if they were absent.
   */
  lemma SplitPreamble(header: Recognizer, preamble: seq<string>, rest: seq<string>)
    requires HeaderNames(header, preamble) == []
    requires rest != [] && header(rest[0]).Some?
    ensures Split(header, rest) != []
    ensures Split(header, preamble + rest) == PrependToFirst(preamble, Split(header, rest))
  {
    var n := header(rest[0]).value;
    SplitFromGathers(header, preamble, rest, None, []);
    assert [] + preamble == preamble;
    SplitFromPending(header, rest[1..], n, preamble);
  }

  lemma {:induction false} SplitFromAppend(header: Recognizer, xs: seq<string>, ys: seq<string>, current: Option<string>, pending: seq<string>)
    requires current.Some? || HeaderNames(header, xs) != []
    requires ys != [] && header(ys[0]).Some?
    ensures SplitFrom(header, xs + ys, current, pending) == SplitFrom(header, xs, current, pending) + Split(header, ys)
    decreases |xs|
  {
    if xs == [] {
      assert xs + ys == ys;
    } else {
      assert (xs + ys)[1..] == xs[1..] + ys;
      match header(xs[0])
      case Some(n) =>
        SplitFromAppend(header, xs[1..], ys, Some(n), if current.Some? then [] else pending);
      case None =>
        SplitFromAppend(header, xs[1..], ys, current, pending + [xs[0]]);
    }
  }

  /**
   * A header closes the section before it: once `xs` holds a header, the
   * writes of `xs + ys`, for `ys` starting with a header, are those of `xs`
   * followed by those of `ys`. Nothing of `ys` leaks into the last section
   * of `xs`, and nothing of `xs` into the sections of `ys`.
   */
  lemma SplitAppend(header: Recognizer, xs: seq<string>, ys: seq<string>)
    requires HeaderNames(header, xs) != []
    requires ys != [] && header(ys[0]).Some?
    ensures Split(header, xs + ys) == Split(header, xs) + Split(header, ys)
  {
    SplitFromAppend(header, xs, ys, None, []);
  }

  /** One step of the loop: how the line at index `i` moves the splitting on. */
  lemma SplitFromStep(header: Recognizer, lines: seq<string>, i: nat, current: Option<string>, pending: seq<string>)
    requires i < |lines|
    ensures header(lines[i]).Some? && current.Some? ==>
      SplitFrom(header, lines[i..], current, pending)
      == [Write(current.value, pending)] + SplitFrom(header, lines[i + 1..], header(lines[i]), [])
    ensures header(lines[i]).Some? && current.None? ==>
      SplitFrom(header, lines[i..], current, pending) == SplitFrom(header, lines[i + 1..], header(lines[i]), pending)
    ensures header(lines[i]).None? ==>
      SplitFrom(header, lines[i..], current, pending) == SplitFrom(header, lines[i + 1..], current, pending + [lines[i]])
  {
    assert lines[i..][0] == lines[i] && lines[i..][1..] == lines[i + 1..];
  }

  /** A section followed by input that starts with a header (or is empty) is written first, and by itself. */
  lemma SplitSectionThen(header: Recognizer, h: string, body: seq<string>, zs: seq<string>)
    requires header(h).Some? && HeaderNames(header, body) == []
    requires zs == [] || header(zs[0]).Some?
    ensures Split(header, [h] + body + zs) == [Write(header(h).value, body)] + Split(header, zs)
  {
    var section := [h] + body;
    SplitSection(header, h, body);
    if zs == [] {
      assert section + zs == section;
      SplitWithoutHeaders(header, zs);
    } else {
      assert section[0] == h;
      SplitAppend(header, section, zs);
    }
  }
}
