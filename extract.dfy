/**
 * The program's main loop: read the lines one by one, write the open
 * section whenever a header starts a new one, and write the last section at
 * the end of input.
 */
module Extract {
  import opened Wrappers
  import opened Header
  import opened Sections
  import opened Output

  /**
   * The main loop over `input`, with `header` the compiled header pattern.
   * The writes it makes on `store`, in order, are exactly
   * `Split(header, input)`; they are also returned as `log`, and the store
   * ends up as applying them in order leaves it. While no header has been seen nothing is written and
   * every line read is kept.
   */
  method SplitToFiles(header: Recognizer, input: seq<string>, store: FileStore) returns (log: seq<Write>)
    modifies store
    ensures log == Split(header, input)
    ensures store.written == old(store.written) + log
    ensures store.files == ApplyWrites(old(store.files), log)
    ensures HeaderNames(header, input) == [] ==> log == [] && store.files == old(store.files)
  {
    var current: Option<string> := None;
    var pending: seq<string> := [];
    log := [];
    var i := 0;
    while i < |input|
      invariant 0 <= i <= |input|
      invariant log + SplitFrom(header, input[i..], current, pending) == Split(header, input)
      invariant store.written == old(store.written) + log
      invariant store.files == ApplyWrites(old(store.files), log)
      invariant current.None? ==> log == [] && pending == input[..i]
    {
      var line := input[i];
      var m := header(line);
      if m.Some? && current.Some? {
        log := Flush(header, input, i, log, Write(current.value, pending), store, old(store.files), old(store.written));
        pending := [];
        current := m;
      } else {
        SplitFromStep(header, input, i, current, pending);
        assert input[..i + 1] == input[..i] + [line];
        if m.Some? {
          current := m;
        } else {
          pending := pending + [line];
        }
      }
      i := i + 1;
    }
    FinishStep(header, input, log, current, pending);
    if current.Some? {
      var w := Write(current.value, pending);
      store.WriteToFile(w.name, w.lines);
      ApplyWritesSnoc(old(store.files), log, w);
      log := log + [w];
    }
  }

  /** The end of input: the open section, if any, is the last write. */
  lemma FinishStep(header: Recognizer, input: seq<string>, log: seq<Write>, current: Option<string>, pending: seq<string>)
    requires log + SplitFrom(header, input[|input|..], current, pending) == Split(header, input)
    requires current.None? ==> log == []
    ensures current.Some? ==> log + [Write(current.value, pending)] == Split(header, input)
    ensures current.None? ==> log == Split(header, input)
    ensures HeaderNames(header, input) == [] ==> current.None? && Split(header, input) == []
  {
  }

  /**
   * One flush of the main loop: the open section `w` is written when the
   * header at `i` is read, after which the loop goes on from that header's
   * section with nothing pending.
   */
  lemma FlushStep(header: Recognizer, input: seq<string>, i: nat, log: seq<Write>, w: Write,
                  files0: map<string, string>, files: map<string, string>)
    requires i < |input| && header(input[i]).Some?
    requires log + SplitFrom(header, input[i..], Some(w.name), w.lines) == Split(header, input)
    requires files == ApplyWrites(files0, log)
    ensures (log + [w]) + SplitFrom(header, input[i + 1..], header(input[i]), []) == Split(header, input)
    ensures files[w.name := Concat(w.lines)] == ApplyWrites(files0, log + [w])
  {
    SplitFromStep(header, input, i, Some(w.name), w.lines);
    ApplyWritesSnoc(files0, log, w);
    var rest := SplitFrom(header, input[i + 1..], header(input[i]), []);
    assert (log + [w]) + rest == log + ([w] + rest);
  }

  /**
   * The flush of the main loop, on the store: the open section `w` is written
   * when the header at `i` is read, and is appended to the log.
   */
  method Flush(header: Recognizer, input: seq<string>, i: nat, log: seq<Write>, w: Write, store: FileStore,
               ghost files0: map<string, string>, ghost written0: seq<Write>) returns (log': seq<Write>)
    modifies store
    requires i < |input| && header(input[i]).Some?
    requires log + SplitFrom(header, input[i..], Some(w.name), w.lines) == Split(header, input)
    requires store.files == ApplyWrites(files0, log) && store.written == written0 + log
    ensures log' == log + [w]
    ensures log' + SplitFrom(header, input[i + 1..], header(input[i]), []) == Split(header, input)
    ensures store.files == ApplyWrites(files0, log') && store.written == written0 + log'
  {
    FlushStep(header, input, i, log, w, files0, store.files);
    store.WriteToFile(w.name, w.lines);
    log' := log + [w];
  }

  /** The program: split standard input into files, recognising headers with `MatchHeader`. */
  method ExtractSummaryFiles(input: seq<string>, store: FileStore) returns (log: seq<Write>)
    modifies store
    ensures log == Split(MatchHeader, input)
    ensures store.written == old(store.written) + log
    ensures store.files == ApplyWrites(old(store.files), log)
    ensures HeaderNames(MatchHeader, input) == [] ==> log == [] && store.files == old(store.files)
  {
    log := SplitToFiles(MatchHeader, input, store);
  }

  /**
   * The files after a run: exactly the header names are written, every other
   * file is left alone, and input without a header leaves every file as it was.
   */
  lemma ExtractedNames(header: Recognizer, files: map<string, string>, input: seq<string>)
    ensures forall f :: f in ApplyWrites(files, Split(header, input))
                        <==> f in files || f in HeaderNames(header, input)
    ensures forall f :: f in files && f !in HeaderNames(header, input)
                        ==> ApplyWrites(files, Split(header, input))[f] == files[f]
    ensures HeaderNames(header, input) == [] ==> ApplyWrites(files, Split(header, input)) == files
  {
    var ws := Split(header, input);
    SplitNames(header, input);
    ApplyWritesFrame(files, ws);
    assert forall f :: f in HeaderNames(header, input) <==> exists i :: 0 <= i < |ws| && ws[i].name == f by {
      forall f | f in HeaderNames(header, input) ensures exists i :: 0 <= i < |ws| && ws[i].name == f {
        var i :| 0 <= i < |Names(ws)| && Names(ws)[i] == f;
        assert ws[i].name == f;
      }
    }
    if HeaderNames(header, input) == [] {
      SplitWithoutHeaders(header, input);
    }
  }

  /**
   * The content a file ends with is that of the last section carrying its
   * name: for a section `[h] + body` followed by sections none of which
   * repeats the name, the file holds `body`, led by the preamble when the
   * section is the first one.
   */
  lemma LastSectionWins(header: Recognizer, files: map<string, string>, xs: seq<string>, h: string, body: seq<string>, zs: seq<string>)
    requires header(h).Some? && HeaderNames(header, body) == []
    requires zs == [] || header(zs[0]).Some?
    requires header(h).value !in HeaderNames(header, zs)
    ensures header(h).value in ApplyWrites(files, Split(header, xs + [h] + body + zs))
    ensures ApplyWrites(files, Split(header, xs + [h] + body + zs))[header(h).value]
         == Concat(if HeaderNames(header, xs) == [] then xs + body else body)
  {
    var rest := [h] + body + zs;
    SplitSectionThen(header, h, body, zs);
    SplitNames(header, zs);
    assert xs + [h] + body + zs == xs + rest;
    if HeaderNames(header, xs) == [] {
      PreambleSectionWins(header, files, xs, h, body, zs);
    } else {
      LaterSectionWins(header, files, xs, h, body, zs);
    }
  }

  /** `LastSectionWins` when `xs` has no header: its lines lead the section's file. */
  lemma PreambleSectionWins(header: Recognizer, files: map<string, string>, xs: seq<string>, h: string, body: seq<string>, zs: seq<string>)
    requires header(h).Some? && HeaderNames(header, xs) == []
    requires Split(header, [h] + body + zs) == [Write(header(h).value, body)] + Split(header, zs)
    requires header(h).value !in Names(Split(header, zs))
    ensures header(h).value in ApplyWrites(files, Split(header, xs + ([h] + body + zs)))
    ensures ApplyWrites(files, Split(header, xs + ([h] + body + zs)))[header(h).value] == Concat(xs + body)
  {
    var w := Write(header(h).value, xs + body);
    var rest := [h] + body + zs;
    assert rest[0] == h;
    SplitPreamble(header, xs, rest);
    assert [] + [w] + Split(header, zs) == PrependToFirst(xs, Split(header, rest));
    LastWriteWins(files, [], w, Split(header, zs));
  }

  /** `LastSectionWins` when `xs` has a header: the section's file holds its body alone. */
  lemma LaterSectionWins(header: Recognizer, files: map<string, string>, xs: seq<string>, h: string, body: seq<string>, zs: seq<string>)
    requires header(h).Some? && HeaderNames(header, xs) != []
    requires Split(header, [h] + body + zs) == [Write(header(h).value, body)] + Split(header, zs)
    requires header(h).value !in Names(Split(header, zs))
    ensures header(h).value in ApplyWrites(files, Split(header, xs + ([h] + body + zs)))
    ensures ApplyWrites(files, Split(header, xs + ([h] + body + zs)))[header(h).value] == Concat(body)
  {
    var w := Write(header(h).value, body);
    var rest := [h] + body + zs;
    assert rest[0] == h;
    SplitAppend(header, xs, rest);
    assert Split(header, xs) + [w] + Split(header, zs) == Split(header, xs) + ([w] + Split(header, zs));
    LastWriteWins(files, Split(header, xs), w, Split(header, zs));
  }

  lemma {:induction false} HeaderNamesAreNames(lines: seq<string>)
    ensures forall i :: 0 <= i < |HeaderNames(MatchHeader, lines)| ==> IsName(HeaderNames(MatchHeader, lines)[i])
    decreases |lines|
  {
    if lines != [] {
      HeaderNamesAreNames(lines[1..]);
    }
  }

  /** Every file written is named by a non-empty run of name characters. */
  lemma WrittenNamesAreNames(input: seq<string>)
    ensures forall w :: w in Split(MatchHeader, input) ==> IsName(w.name)
  {
    var ws := Split(MatchHeader, input);
    SplitNames(MatchHeader, input);
    HeaderNamesAreNames(input);
    forall w | w in ws ensures IsName(w.name) {
      var i :| 0 <= i < |ws| && ws[i] == w;
      assert Names(ws)[i] == w.name;
    }
  }
}
