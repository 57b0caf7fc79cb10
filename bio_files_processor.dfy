/**
  Line-oriented processing of two text formats, with the files replaced by
  sequences of lines: re-emitting a multi-line FASTA file with one sequence
  line per record, and collecting the hit identifiers listed in a plain-text
  BLAST report.
*/
module BioFilesProcessor {
  import opened Results
  import opened PyStr

  // -----------------------------------------------------------------------
  // Default output path of the FASTA reformatter
  // -----------------------------------------------------------------------

  const FastaSuffix: string := ".fasta"
  const OnelineSuffix: string := "_oneline.fasta"

  lemma FastaSuffixNotSelfOverlapping()
    ensures !SelfOverlapping(FastaSuffix)
  {
    forall k | 0 < k < |FastaSuffix|
      ensures FastaSuffix[k..] != FastaSuffix[..|FastaSuffix| - k]
    {
      assert FastaSuffix[k..][0] != FastaSuffix[..|FastaSuffix| - k][0];
    }
  }

  /**
    The path the reformatter writes to: the one given, or else the input path
    with every `.fasta` turned into `_oneline.fasta`, or, when the input does
    not end in `.fasta`, the input path followed by `_oneline.fasta`.
  */
  function DefaultOutputPath(inputFasta: string, outputFasta: Option<string>): (r: string)
    ensures outputFasta.Some? ==> r == outputFasta.value
    ensures outputFasta.None? && !EndsWith(inputFasta, FastaSuffix) ==> r == inputFasta + OnelineSuffix
    ensures outputFasta.None? ==> EndsWith(r, OnelineSuffix)
    ensures outputFasta.None? && EndsWith(inputFasta, FastaSuffix)
            && !Contains(inputFasta[..|inputFasta| - |FastaSuffix|], FastaSuffix)
            ==> r == inputFasta[..|inputFasta| - |FastaSuffix|] + OnelineSuffix
  {
    match outputFasta
    case Some(path) => path
    case None =>
      if EndsWith(inputFasta, FastaSuffix) then
        var stem := inputFasta[..|inputFasta| - |FastaSuffix|];
        assert inputFasta == stem + FastaSuffix;
        FastaSuffixNotSelfOverlapping();
        ReplaceAllSuffix(stem, FastaSuffix, OnelineSuffix);
        ReplaceAllAbsent(stem, FastaSuffix, OnelineSuffix);
        ReplaceAll(inputFasta, FastaSuffix, OnelineSuffix)
      else inputFasta + OnelineSuffix
  }

  // -----------------------------------------------------------------------
  // FASTA: reference definition
  // -----------------------------------------------------------------------

  /** A header line and the sequence lines that follow it. */
  datatype FastaRecord = FastaRecord(header: string, fragments: seq<string>)

  predicate IsHeader(line: string) {
    StartsWith(line, ">")
  }

  predicate NoHeaders(ls: seq<string>) {
    forall l :: l in ls ==> !IsHeader(l)
  }

  /** The lines the reformatter looks at: each one stripped, the blank ones dropped. */
  function ContentLines(lines: seq<string>): (r: seq<string>)
    ensures forall l :: l in r ==> l != []
  {
    if lines == [] then []
    else
      var s := Strip(lines[|lines| - 1]);
      ContentLines(lines[..|lines| - 1]) + (if s == [] then [] else [s])
  }

  /** Splits lines into those before the first header and one record per header. */
  function Group(ls: seq<string>): (seq<string>, seq<FastaRecord>) {
    if ls == [] then ([], []) else ConsLine(ls[0], Group(ls[1..]))
  }

  /** Puts line `y` in front of a grouping: a header takes the loose lines as its record. */
  function ConsLine(y: string, g: (seq<string>, seq<FastaRecord>)): (seq<string>, seq<FastaRecord>) {
    if IsHeader(y) then ([], [FastaRecord(y, g.0)] + g.1) else ([y] + g.0, g.1)
  }

  /** Puts line `x` after a grouping: a header opens a record, any other line joins the last one. */
  function AddLine(g: (seq<string>, seq<FastaRecord>), x: string): (seq<string>, seq<FastaRecord>) {
    var (pre, recs) := g;
    if IsHeader(x) then (pre, recs + [FastaRecord(x, [])])
    else if recs == [] then (pre + [x], [])
    else (pre, recs[..|recs| - 1] + [FastaRecord(recs[|recs| - 1].header, recs[|recs| - 1].fragments + [x])])
  }

  function Flatten(recs: seq<FastaRecord>): seq<string> {
    if recs == [] then [] else [recs[0].header] + recs[0].fragments + Flatten(recs[1..])
  }

  /**
    `Group` is a partition: read back in order its parts give the input,
    every record starts at a header and no other part holds a header.
  */
  lemma {:induction false} GroupPartition(ls: seq<string>)
    ensures var (pre, recs) := Group(ls);
            && pre + Flatten(recs) == ls
            && NoHeaders(pre)
            && forall r :: r in recs ==> IsHeader(r.header) && NoHeaders(r.fragments)
  {
    if ls != [] {
      GroupPartition(ls[1..]);
      var (pre, recs) := Group(ls[1..]);
      assert Group(ls) == ConsLine(ls[0], (pre, recs));
      if IsHeader(ls[0]) {
        var r := FastaRecord(ls[0], pre);
        assert Flatten([r] + recs) == [r.header] + r.fragments + Flatten(recs) by {
          assert ([r] + recs)[1..] == recs;
        }
        assert ls == [ls[0]] + ls[1..];
      } else {
        assert ls == [ls[0]] + ls[1..];
      }
    }
  }

  /** A record is made for a header line and for nothing else. */
  lemma {:induction false} GroupHeaders(ls: seq<string>)
    ensures Headers(Group(ls).1) == HeaderLines(ls)
  {
    if ls != [] {
      GroupHeaders(ls[1..]);
      HeaderLinesCons(ls[0], ls[1..]);
      assert ls == [ls[0]] + ls[1..];
    }
  }

  function Headers(recs: seq<FastaRecord>): seq<string> {
    if recs == [] then [] else [recs[0].header] + Headers(recs[1..])
  }

  /** The header lines of `ls`, in order. */
  function HeaderLines(ls: seq<string>): seq<string> {
    if ls == [] then []
    else HeaderLines(ls[..|ls| - 1]) + (if IsHeader(ls[|ls| - 1]) then [ls[|ls| - 1]] else [])
  }

  lemma {:induction false} HeaderLinesCons(x: string, ls: seq<string>)
    ensures HeaderLines([x] + ls) == (if IsHeader(x) then [x] else []) + HeaderLines(ls)
    decreases |ls|
  {
    if ls != [] {
      var init := ls[..|ls| - 1];
      assert ([x] + ls)[..|ls|] == [x] + init;
      HeaderLinesCons(x, init);
    } else {
      assert ([x] + ls)[..0] == [];
    }
  }

  /** Grouping can equally be built from the end of the input. */
  lemma {:induction false} GroupSnoc(ls: seq<string>, x: string)
    ensures Group(ls + [x]) == AddLine(Group(ls), x)
  {
    if ls == [] {
      var r, none: seq<string> := FastaRecord(x, []), [];
      assert ls + [x] == [x] && [x][1..] == [];
      assert [r] + [] == [] + [r];
      assert [x] + none == none + [x];
    } else {
      assert (ls + [x])[1..] == ls[1..] + [x] && (ls + [x])[0] == ls[0];
      GroupSnoc(ls[1..], x);
      ConsAddCommute(ls[0], Group(ls[1..]), x);
    }
  }

  lemma ConsAddCommute(y: string, g: (seq<string>, seq<FastaRecord>), x: string)
    ensures ConsLine(y, AddLine(g, x)) == AddLine(ConsLine(y, g), x)
  {
    var (pre, recs) := g;
    if IsHeader(y) && !IsHeader(x) {
      var r := FastaRecord(y, pre);
      if recs == [] {
        var r' := FastaRecord(y, pre + [x]);
        assert ConsLine(y, AddLine(g, x)) == ([], [r'] + []);
        assert ([r] + [])[..0] + [r'] == [r'] + [];
      } else {
        var all := [r] + recs;
        var last := recs[|recs| - 1];
        var last' := FastaRecord(last.header, last.fragments + [x]);
        assert all[|all| - 1] == last;
        assert all[..|all| - 1] == [r] + recs[..|recs| - 1];
        assert [r] + (recs[..|recs| - 1] + [last']) == ([r] + recs[..|recs| - 1]) + [last'];
      }
    } else if IsHeader(y) && IsHeader(x) {
      var r, rx := FastaRecord(y, pre), FastaRecord(x, []);
      assert [r] + (recs + [rx]) == ([r] + recs) + [rx];
    } else if !IsHeader(y) && !IsHeader(x) && recs == [] {
      assert [y] + (pre + [x]) == ([y] + pre) + [x];
    }
  }

  /**
    The quirk of the reformatter: sequence lines before the first header are
    not dropped but start the first record's sequence.
  */
  function Merge(pre: seq<string>, recs: seq<FastaRecord>): seq<FastaRecord> {
    if recs == [] then [] else [FastaRecord(recs[0].header, pre + recs[0].fragments)] + recs[1..]
  }

  /** The records the reformatter writes, in input order. */
  function Records(lines: seq<string>): seq<FastaRecord> {
    var (pre, recs) := Group(ContentLines(lines));
    Merge(pre, recs)
  }

  /** `"".join(fragments)` */
  function Join(fragments: seq<string>): string {
    if fragments == [] then [] else Join(fragments[..|fragments| - 1]) + fragments[|fragments| - 1]
  }

  lemma JoinSingle(x: string)
    ensures Join([x]) == x
  {
    assert [x][..0] == [];
  }

  lemma JoinPair(x: string, y: string)
    ensures Join([x, y]) == x + y
  {
    assert [x, y][..1] == [x];
    JoinSingle(x);
  }

  /** Each record as its header line followed by its sequence on one line. */
  function Emit(recs: seq<FastaRecord>): seq<string> {
    if recs == [] then []
    else
      var last := recs[|recs| - 1];
      Emit(recs[..|recs| - 1]) + [last.header, Join(last.fragments)]
  }

  /** The output lines of the reformatter. */
  function OneLineFasta(lines: seq<string>): seq<string> {
    Emit(Records(lines))
  }

  // -----------------------------------------------------------------------
  // FASTA: the reformatter
  // -----------------------------------------------------------------------

  /** How the reformatter's variables stand after it has seen the content lines `ls`. */
  ghost predicate FastaState(ls: seq<string>, header: Option<string>, sequences: seq<string>, out: seq<string>) {
    var (pre, recs) := Group(ls);
    var m := Merge(pre, recs);
    && (header.None? <==> recs == [])
    && (header.None? ==> sequences == pre && out == [])
    && (header.Some? ==>
          header.value == m[|m| - 1].header
          && sequences == m[|m| - 1].fragments
          && out == Emit(m[..|m| - 1]))
  }

  /**
    `convert_multiline_fasta_to_oneline`: one pass that keeps the current
    header and its pending sequence lines, and writes a record whenever the
    next header arrives and once more at the end.
  */
  method ConvertMultilineFastaToOneline(inputFasta: string, outputFasta: Option<string>, inputLines: seq<string>)
    returns (outputPath: string, outputLines: seq<string>)
    ensures outputPath == DefaultOutputPath(inputFasta, outputFasta)
    ensures outputLines == OneLineFasta(inputLines)
  {
    outputPath := DefaultOutputPath(inputFasta, outputFasta);
    var sequences: seq<string> := [];
    var header: Option<string> := None;
    outputLines := [];
    for i := 0 to |inputLines|
      invariant FastaState(ContentLines(inputLines[..i]), header, sequences, outputLines)
    {
      ghost var ls := ContentLines(inputLines[..i]);
      var line := Strip(inputLines[i]);
      ContentLinesSnoc(inputLines, i);
      if line == [] {
        // blank lines are skipped
      } else if StartsWith(line, ">") {
        HeaderStep(ls, line, header, sequences, outputLines);
        if header.Some? {
          outputLines := outputLines + [header.value, Join(sequences)];
          sequences := [];
        }
        header := Some(line);
      } else {
        FragmentStep(ls, line, header, sequences, outputLines);
        sequences := sequences + [line];
      }
    }
    assert inputLines[..|inputLines|] == inputLines;
    FinalFlush(ContentLines(inputLines), header, sequences, outputLines);
    if header.Some? {
      outputLines := outputLines + [header.value, Join(sequences)];
    }
  }

  lemma ContentLinesSnoc(lines: seq<string>, i: nat)
    requires i < |lines|
    ensures Strip(lines[i]) == [] ==> ContentLines(lines[..i + 1]) == ContentLines(lines[..i])
    ensures Strip(lines[i]) != [] ==> ContentLines(lines[..i + 1]) == ContentLines(lines[..i]) + [Strip(lines[i])]
  {
    assert lines[..i + 1][..i] == lines[..i];
    assert ContentLines(lines[..i]) + [] == ContentLines(lines[..i]);
  }

  /** A header line flushes the pending record, if there is one, and becomes the current header. */
  lemma HeaderStep(ls: seq<string>, x: string, header: Option<string>, sequences: seq<string>, out: seq<string>)
    requires FastaState(ls, header, sequences, out) && IsHeader(x)
    ensures FastaState(ls + [x], Some(x),
                       if header.Some? then [] else sequences,
                       if header.Some? then out + [header.value, Join(sequences)] else out)
  {
    GroupSnoc(ls, x);
    var (pre, recs) := Group(ls);
    var m := Merge(pre, recs);
    var r := FastaRecord(x, []);
    if recs != [] {
      assert Merge(pre, recs + [r]) == m + [r];
      assert (m + [r])[..|m|] == m;
      assert m == m[..|m| - 1] + [m[|m| - 1]];
    }
  }

  /** Any other content line is appended to the pending sequence lines. */
  lemma FragmentStep(ls: seq<string>, x: string, header: Option<string>, sequences: seq<string>, out: seq<string>)
    requires FastaState(ls, header, sequences, out) && !IsHeader(x)
    ensures FastaState(ls + [x], header, sequences + [x], out)
  {
    GroupSnoc(ls, x);
    var (pre, recs) := Group(ls);
    if recs != [] {
      var m := Merge(pre, recs);
      var last := recs[|recs| - 1];
      var recs' := recs[..|recs| - 1] + [FastaRecord(last.header, last.fragments + [x])];
      var m' := Merge(pre, recs');
      assert m'[..|m'| - 1] == m[..|m| - 1];
    }
  }

  /** At the end of input the pending record, if any, is the last one written. */
  lemma FinalFlush(ls: seq<string>, header: Option<string>, sequences: seq<string>, out: seq<string>)
    requires FastaState(ls, header, sequences, out)
    ensures (if header.Some? then out + [header.value, Join(sequences)] else out) == Emit(Merge(Group(ls).0, Group(ls).1))
  {
    var (pre, recs) := Group(ls);
    var m := Merge(pre, recs);
    if recs != [] {
      assert m == m[..|m| - 1] + [m[|m| - 1]];
    }
  }

  // -----------------------------------------------------------------------
  // FASTA: properties of the output
  // -----------------------------------------------------------------------

  /** Two output lines per record: its header, then all its sequence lines joined. */
  lemma {:induction false} EmitShape(recs: seq<FastaRecord>)
    ensures |Emit(recs)| == 2 * |recs|
    ensures forall k :: 0 <= k < |recs| ==>
              Emit(recs)[2 * k] == recs[k].header && Emit(recs)[2 * k + 1] == Join(recs[k].fragments)
  {
    if recs != [] {
      EmitShape(recs[..|recs| - 1]);
    }
  }

  lemma {:induction false} HeadersShape(recs: seq<FastaRecord>)
    ensures |Headers(recs)| == |recs|
    ensures forall k :: 0 <= k < |recs| ==> Headers(recs)[k] == recs[k].header
  {
    if recs != [] {
      HeadersShape(recs[1..]);
    }
  }

  /**
    The output is one header line followed by one sequence line for each
    header line of the input, in input order.
  */
  lemma OneLineFastaShape(lines: seq<string>)
    ensures var hs := HeaderLines(ContentLines(lines));
            && |Records(lines)| == |hs|
            && |OneLineFasta(lines)| == 2 * |hs|
            && forall k :: 0 <= k < |hs| ==>
                 OneLineFasta(lines)[2 * k] == hs[k]
                 && OneLineFasta(lines)[2 * k + 1] == Join(Records(lines)[k].fragments)
  {
    var ls := ContentLines(lines);
    var (pre, recs) := Group(ls);
    var m := Records(lines);
    GroupHeaders(ls);
    HeadersShape(recs);
    HeadersShape(m);
    EmitShape(m);
  }

  lemma {:induction false} HeaderLinesEmpty(ls: seq<string>)
    ensures HeaderLines(ls) == [] <==> NoHeaders(ls)
  {
    if ls != [] {
      var init := ls[..|ls| - 1];
      HeaderLinesEmpty(init);
      assert ls == init + [ls[|ls| - 1]];
    }
  }

  /** Input without a header line gives no output, whatever sequence lines it holds. */
  lemma NoHeaderNoOutput(lines: seq<string>)
    requires NoHeaders(ContentLines(lines))
    ensures OneLineFasta(lines) == []
  {
    HeaderLinesEmpty(ContentLines(lines));
    OneLineFastaShape(lines);
  }

  /** Regrouping a concatenation; stated once so that `ContentLinesAppend` stays cheap. */
  lemma Associative<T>(x: seq<T>, y: seq<T>, z: seq<T>)
    ensures x + (y + z) == (x + y) + z
  {
  }

  lemma {:induction false} ContentLinesAppend(a: seq<string>, c: seq<string>)
    ensures ContentLines(a + c) == ContentLines(a) + ContentLines(c)
    decreases |c|
  {
    if c == [] {
      assert a + c == a;
    } else {
      var c' := c[..|c| - 1];
      var x := c[|c| - 1];
      var tail := if Strip(x) == [] then [] else [Strip(x)];
      assert (a + c)[..|a + c| - 1] == a + c' && (a + c)[|a + c| - 1] == x;
      assert ContentLines(a + c) == ContentLines(a + c') + tail;
      assert ContentLines(c) == ContentLines(c') + tail;
      ContentLinesAppend(a, c');
      Associative(ContentLines(a), ContentLines(c'), tail);
    }
  }

  /** Blank and whitespace-only lines make no difference to the output. */
  lemma BlankLinesIgnored(a: seq<string>, b: string, c: seq<string>)
    requires Strip(b) == []
    ensures OneLineFasta(a + [b] + c) == OneLineFasta(a + c)
  {
    ContentLinesAppend(a + [b], c);
    ContentLinesAppend(a, [b]);
    ContentLinesAppend(a, c);
    assert [b][..0] == [];
    assert ContentLines(a) + [] == ContentLines(a);
  }

  lemma {:induction false} GroupNoHeaders(f: seq<string>, b: seq<string>)
    requires NoHeaders(f)
    ensures Group(f + b) == (f + Group(b).0, Group(b).1)
  {
    if f != [] {
      assert (f + b)[1..] == f[1..] + b && (f + b)[0] == f[0];
      GroupNoHeaders(f[1..], b);
      assert [f[0]] + (f[1..] + Group(b).0) == f + Group(b).0;
    } else {
      assert f + b == b && f + Group(b).0 == Group(b).0;
    }
  }

  lemma {:induction false} GroupAtHeader(a: seq<string>, s: seq<string>)
    requires s != [] && IsHeader(s[0])
    ensures Group(a + s) == (Group(a).0, Group(a).1 + Group(s).1)
  {
    if a == [] {
      assert a + s == s && Group(s).0 == [];
      assert [] + Group(s).1 == Group(s).1;
    } else {
      assert (a + s)[1..] == a[1..] + s && (a + s)[0] == a[0];
      GroupAtHeader(a[1..], s);
      var (pre, recs) := Group(a[1..]);
      if IsHeader(a[0]) {
        var r := FastaRecord(a[0], pre);
        assert [r] + (recs + Group(s).1) == ([r] + recs) + Group(s).1;
      }
    }
  }

  /** A header, its sequence lines and then the next header or the end: one record. */
  lemma RecordStart(h: string, f: seq<string>, s: seq<string>)
    requires IsHeader(h) && NoHeaders(f)
    requires s == [] || IsHeader(s[0])
    ensures Group([h] + f + s) == ([], [FastaRecord(h, f)] + Group(s).1)
  {
    var s' := [h] + f + s;
    assert s'[0] == h && s'[1..] == f + s;
    assert Group(s') == ConsLine(h, Group(f + s));
    GroupNoHeaders(f, s);
    if s != [] {
      assert Group(s) == ConsLine(s[0], Group(s[1..]));
    }
    assert f + Group(s).0 == f;
  }

  /** Loose lines in front of the first record join it. */
  lemma MergeOrphans(a: seq<string>, r: FastaRecord, rest: seq<FastaRecord>)
    requires NoHeaders(a)
    ensures Group(a) == (a, [])
    ensures FastaRecord(r.header, a + r.fragments) in Merge(Group(a).0, Group(a).1 + ([r] + rest))
  {
    GroupNoHeaders(a, []);
    assert a + [] == a;
    assert [] + ([r] + rest) == [r] + rest;
  }

  /** A record after at least one other record is left as it is. */
  lemma MergeKeepsLater(a: seq<string>, r: FastaRecord, rest: seq<FastaRecord>)
    requires !NoHeaders(a)
    ensures r in Merge(Group(a).0, Group(a).1 + ([r] + rest))
  {
    var (pre, recs) := Group(a);
    assert recs != [] by {
      GroupHeaders(a);
      HeaderLinesEmpty(a);
    }
    var all := recs + ([r] + rest);
    assert all[|recs|] == r;
    assert Merge(pre, all)[|recs|] == r;
  }

  lemma GroupAroundRecord(a: seq<string>, h: string, f: seq<string>, s: seq<string>)
    requires IsHeader(h) && NoHeaders(f)
    requires s == [] || IsHeader(s[0])
    ensures Group(a + [h] + f + s) == (Group(a).0, Group(a).1 + ([FastaRecord(h, f)] + Group(s).1))
  {
    var s' := [h] + f + s;
    assert a + [h] + f + s == a + s';
    GroupAtHeader(a, s');
    RecordStart(h, f, s);
  }

  /**
    A header `h`, the sequence lines `f` after it and the next header (or the
    end) make one record with sequence `f`; when no header precedes `h`, the
    sequence lines `a` before it are put in front.
  */
  lemma RecordBetweenHeaders(a: seq<string>, h: string, f: seq<string>, s: seq<string>)
    requires IsHeader(h) && NoHeaders(f)
    requires s == [] || IsHeader(s[0])
    ensures var g := Group(a + [h] + f + s);
            FastaRecord(h, (if NoHeaders(a) then a else []) + f) in Merge(g.0, g.1)
  {
    var r := FastaRecord(h, f);
    var rest := Group(s).1;
    GroupAroundRecord(a, h, f, s);
    if NoHeaders(a) {
      MergeOrphans(a, r, rest);
    } else {
      MergeKeepsLater(a, r, rest);
      assert [] + f == f;
    }
  }

  predicate Clean(l: string) {
    l != [] && !IsSpace(l[0]) && !IsSpace(l[|l| - 1])
  }

  /** Lines that are already stripped and not blank are all kept, unchanged. */
  lemma {:induction false} ContentLinesClean(ls: seq<string>)
    requires forall i :: 0 <= i < |ls| ==> Clean(ls[i])
    ensures ContentLines(ls) == ls
  {
    if ls != [] {
      var init := ls[..|ls| - 1];
      var x := ls[|ls| - 1];
      assert ContentLines(init) == init by {
        ContentLinesClean(init);
      }
      assert Strip(x) == x by {
        assert Clean(x);
        StripClean(x);
      }
      assert ls == init + [x];
    }
  }

  lemma GroupOne(h: string, z: string)
    requires IsHeader(h) && !IsHeader(z)
    ensures Group([h, z]) == ([], [FastaRecord(h, [z])])
  {
    var none: seq<string> := [];
    assert [h] + [z] + none == [h, z];
    assert [FastaRecord(h, [z])] + Group(none).1 == [FastaRecord(h, [z])];
    assert Group(none) == ([], []);
    RecordStart(h, [z], none);
  }

  lemma GroupTwo(h1: string, x: string, y: string, h2: string, z: string)
    requires IsHeader(h1) && IsHeader(h2) && !IsHeader(x) && !IsHeader(y) && !IsHeader(z)
    ensures Group([h1, x, y, h2, z]) == ([], [FastaRecord(h1, [x, y]), FastaRecord(h2, [z])])
  {
    var r1, r2 := FastaRecord(h1, [x, y]), FastaRecord(h2, [z]);
    assert [h1] + [x, y] + [h2, z] == [h1, x, y, h2, z];
    assert [r1] + [r2] == [r1, r2];
    GroupOne(h2, z);
    RecordStart(h1, [x, y], [h2, z]);
  }

  /**
    A two-record file such as `>seq1`, `ACGT`, `TTTT`, `>seq2`, `GGGG`: a
    header with two sequence lines, then a header with one, all already
    stripped, give each header followed by its lines joined.
  */
  lemma TwoRecords(h1: string, x: string, y: string, h2: string, z: string)
    requires IsHeader(h1) && IsHeader(h2) && !IsHeader(x) && !IsHeader(y) && !IsHeader(z)
    requires Clean(h1) && Clean(x) && Clean(y) && Clean(h2) && Clean(z)
    ensures OneLineFasta([h1, x, y, h2, z]) == [h1, x + y, h2, z]
  {
    var lines := [h1, x, y, h2, z];
    var r1 := FastaRecord(h1, [x, y]);
    var r2 := FastaRecord(h2, [z]);
    assert Records(lines) == [r1, r2] by {
      assert [] + r1.fragments == r1.fragments;
      ContentLinesClean(lines);
      GroupTwo(h1, x, y, h2, z);
    }
    assert Emit([r1, r2]) == [h1, x + y, h2, z] by {
      EmitTwo(r1, r2);
      JoinPair(x, y);
      JoinSingle(z);
    }
  }

  lemma EmitTwo(r1: FastaRecord, r2: FastaRecord)
    ensures Emit([r1, r2]) == [r1.header, Join(r1.fragments), r2.header, Join(r2.fragments)]
  {
    assert [r1, r2][..1] == [r1] && [r1][..0] == [];
    var none: seq<FastaRecord> := [];
    assert Emit([r1]) == Emit(none) + [r1.header, Join(r1.fragments)];
    assert Emit([r1]) == [r1.header, Join(r1.fragments)];
    assert Emit([r1, r2]) == Emit([r1]) + [r2.header, Join(r2.fragments)];
  }

  // -----------------------------------------------------------------------
  // BLAST: reference definition
  // -----------------------------------------------------------------------

  const QueryMarker: string := "Query="
  const SectionMarker: string := "Sequences producing significant alignments:"

  /** The kinds of stripped report lines, tested in the order the extractor tests them. */
  predicate IsQueryLine(t: string) {
    StartsWith(t, QueryMarker)
  }

  predicate OpensHits(t: string) {
    !IsQueryLine(t) && Contains(t, SectionMarker)
  }

  /** A blank line or an alignment-detail line ends a hits section. */
  predicate ClosesHits(t: string) {
    !IsQueryLine(t) && !Contains(t, SectionMarker) && (t == [] || StartsWith(t, ">"))
  }

  /** Inside a hits section, every other line is a hit line. */
  predicate IsHitLine(t: string) {
    !IsQueryLine(t) && !Contains(t, SectionMarker) && t != [] && !StartsWith(t, ">")
  }

  /** Neither a query line nor the end of a section: an open hits section stays open. */
  predicate KeepsHits(t: string) {
    !IsQueryLine(t) && !ClosesHits(t)
  }

  /** The four kinds are exhaustive: a line opens, closes, keeps or resets the section. */
  lemma LineKinds(t: string)
    ensures IsQueryLine(t) || OpensHits(t) || ClosesHits(t) || IsHitLine(t)
    ensures !(IsQueryLine(t) && (OpensHits(t) || ClosesHits(t) || IsHitLine(t)))
    ensures !(OpensHits(t) && (ClosesHits(t) || IsHitLine(t)))
    ensures !(ClosesHits(t) && IsHitLine(t))
    ensures KeepsHits(t) <==> OpensHits(t) || IsHitLine(t)
  {
  }

  /**
    The hits flag before line `i` (each line stripped): a section opens at its
    marker line and stays open until a query line, a blank line or a `>` line.
  */
  predicate InHits(lines: seq<string>, i: nat)
    requires i <= |lines|
  {
    i > 0 && (OpensHits(Strip(lines[i - 1])) || (InHits(lines, i - 1) && KeepsHits(Strip(lines[i - 1]))))
  }

  /** Line `j` opened a hits section that is still open before line `i`. */
  ghost predicate OpenSince(lines: seq<string>, j: nat, i: nat)
    requires j < i <= |lines|
  {
    OpensHits(Strip(lines[j])) && forall k :: j < k < i ==> KeepsHits(Strip(lines[k]))
  }

  /**
    Equivalently: some earlier line opened a hits section and no line since
    then was a query line or ended it.
  */
  lemma {:induction false} InHitsSince(lines: seq<string>, i: nat)
    requires i <= |lines|
    ensures InHits(lines, i) <==> exists j :: 0 <= j < i && OpenSince(lines, j, i)
  {
    if i > 0 {
      InHitsSince(lines, i - 1);
      if InHits(lines, i) && !OpensHits(Strip(lines[i - 1])) {
        var j :| 0 <= j < i - 1 && OpenSince(lines, j, i - 1);
        assert OpenSince(lines, j, i);
      }
      if OpensHits(Strip(lines[i - 1])) {
        assert OpenSince(lines, i - 1, i);
      }
      if j :| 0 <= j < i && OpenSince(lines, j, i) {
        if j < i - 1 {
          assert OpenSince(lines, j, i - 1);
        }
      }
    }
  }

  /**
    The identifier of a hit line, `line.split()[0]`: its first
    whitespace-delimited word (empty only for an all-whitespace line, which
    is never a hit line once stripped).
  */
  function HitId(t: string): (r: string)
    ensures forall i :: 0 <= i < |r| ==> !IsSpace(r[i])
    ensures t != [] && !IsSpace(t[0]) ==> r != [] && |r| <= |t| && r == t[..|r|] && (|r| == |t| || IsSpace(t[|r|]))
  {
    TakeToken(TrimLeft(t))
  }

  /** Line `i` is a hit line inside a hits section. */
  predicate HitAt(lines: seq<string>, i: nat)
    requires i < |lines|
  {
    InHits(lines, i) && IsHitLine(Strip(lines[i]))
  }

  /** The identifier line `i` contributes: one if it is a hit line inside a hits section, none otherwise. */
  function HitOf(lines: seq<string>, i: nat): seq<string>
    requires i < |lines|
  {
    if HitAt(lines, i) then [HitId(Strip(lines[i]))] else []
  }

  /** The identifiers of the hit lines among the first `n` lines, in order, repeats kept. */
  function HitsBefore(lines: seq<string>, n: nat): seq<string>
    requires n <= |lines|
  {
    if n == 0 then [] else HitsBefore(lines, n - 1) + HitOf(lines, n - 1)
  }

  /** The identifiers the extractor reports: the hits without repeats, in ascending order. */
  function BlastHits(lines: seq<string>): seq<string> {
    SortedSet(HitsBefore(lines, |lines|))
  }

  /** The flag after one more stripped line, in the order the extractor tests the line. */
  function NextInHits(inside: bool, t: string): bool {
    if IsQueryLine(t) then false
    else if Contains(t, SectionMarker) then true
    else inside && !(t == [] || StartsWith(t, ">"))
  }

  /** One line of the pass: the flag and the collected identifiers move as the reference says. */
  lemma BlastStep(lines: seq<string>, i: nat)
    requires i < |lines|
    ensures var t := Strip(lines[i]);
            && InHits(lines, i + 1) == NextInHits(InHits(lines, i), t)
            && HitsBefore(lines, i + 1) == HitsBefore(lines, i) + (if InHits(lines, i) && IsHitLine(t) then [HitId(t)] else [])
  {
  }

  /** The concatenation of the first `n` pieces. */
  function Concat<T>(ps: seq<seq<T>>, n: nat): seq<T>
    requires n <= |ps|
  {
    if n == 0 then [] else Concat(ps, n - 1) + ps[n - 1]
  }

  /** An element of a concatenation comes from one of its pieces, and each piece's elements are in it. */
  lemma {:induction false} ConcatMembers<T>(ps: seq<seq<T>>, n: nat, x: T)
    requires n <= |ps|
    ensures x in Concat(ps, n) <==> exists i :: 0 <= i < n && x in ps[i]
  {
    if n > 0 {
      ConcatMembers(ps, n - 1, x);
      assert x in Concat(ps, n) <==> x in Concat(ps, n - 1) || x in ps[n - 1];
    }
  }

  /** What each line contributes. */
  function PerLine(lines: seq<string>): (ps: seq<seq<string>>)
    ensures |ps| == |lines|
  {
    seq(|lines|, i requires 0 <= i < |lines| => HitOf(lines, i))
  }

  /** The collected identifiers are the concatenation of what each line contributes. */
  lemma {:induction false} HitsBeforeConcat(lines: seq<string>, n: nat)
    requires n <= |lines|
    ensures HitsBefore(lines, n) == Concat(PerLine(lines), n)
  {
    if n > 0 {
      HitsBeforeConcat(lines, n - 1);
    }
  }

  /** A line contributes `x` exactly when it is a hit line inside a hits section whose first word is `x`. */
  lemma PerLineMembers(lines: seq<string>, i: nat, x: string)
    requires i < |lines|
    ensures x in PerLine(lines)[i] <==> HitAt(lines, i) && x == HitId(Strip(lines[i]))
  {
  }

  /** An identifier is collected exactly when some hit line in a hits section starts with it. */
  lemma HitsBeforeMembers(lines: seq<string>, n: nat)
    requires n <= |lines|
    ensures forall x :: x in HitsBefore(lines, n) <==>
              exists i :: 0 <= i < n && HitAt(lines, i) && x == HitId(Strip(lines[i]))
  {
    HitsBeforeConcat(lines, n);
    forall x
      ensures x in HitsBefore(lines, n) <==> exists i :: 0 <= i < n && HitAt(lines, i) && x == HitId(Strip(lines[i]))
    {
      ConcatMembers(PerLine(lines), n, x);
      forall i | 0 <= i < n
        ensures x in PerLine(lines)[i] <==> HitAt(lines, i) && x == HitId(Strip(lines[i]))
      {
        PerLineMembers(lines, i, x);
      }
    }
  }

  /**
    The report lists, in strictly ascending order and so without repeats,
    exactly the first words of the hit lines met inside hits sections.
  */
  lemma BlastHitsMembers(lines: seq<string>, uniqueHits: seq<string>)
    requires uniqueHits == BlastHits(lines)
    ensures StrictlySorted(uniqueHits)
    ensures forall x :: x in uniqueHits <==> exists i :: 0 <= i < |lines| && HitAt(lines, i) && x == HitId(Strip(lines[i]))
  {
    var hits := HitsBefore(lines, |lines|);
    HitsBeforeMembers(lines, |lines|);
    forall x ensures x in uniqueHits <==> x in hits {
      assert x in uniqueHits <==> x in Elements(uniqueHits);
      assert x in hits <==> x in Elements(hits);
    }
  }

  // -----------------------------------------------------------------------
  // BLAST: the extractor
  // -----------------------------------------------------------------------

  /**
    The body of the extractor's loop for one stripped line: the new value of
    `insideHits` and of the `hits` list.
  */
  method BlastLine(line: string, insideHits: bool, hits: seq<string>) returns (inside: bool, hits': seq<string>)
    ensures inside == NextInHits(insideHits, line)
    ensures hits' == hits + (if insideHits && IsHitLine(line) then [HitId(line)] else [])
  {
    hits' := hits;
    if StartsWith(line, QueryMarker) {
      return false, hits';
    }
    if Contains(line, SectionMarker) {
      return true, hits';
    }
    if insideHits {
      if line == [] || StartsWith(line, ">") {
        return false, hits';
      }
      var description := HitId(line);
      hits' := hits' + [description];
    }
    return insideHits, hits';
  }

  /**
    `parse_blast_output`: one pass over the stripped lines that keeps the
    flag `insideHits` and collects the first word of every hit line, then
    `sorted(set(hits))`.
  */
  method ParseBlastOutput(lines: seq<string>) returns (uniqueHits: seq<string>)
    ensures uniqueHits == BlastHits(lines)
    ensures StrictlySorted(uniqueHits)
    ensures forall x :: x in uniqueHits <==> exists i :: 0 <= i < |lines| && HitAt(lines, i) && x == HitId(Strip(lines[i]))
  {
    var hits: seq<string> := [];
    var insideHits := false;
    for i := 0 to |lines|
      invariant insideHits == InHits(lines, i)
      invariant hits == HitsBefore(lines, i)
    {
      BlastStep(lines, i);
      insideHits, hits := BlastLine(Strip(lines[i]), insideHits, hits);
    }
    uniqueHits := SortedSet(hits);
    BlastHitsMembers(lines, uniqueHits);
  }
}
