/** HeaderFieldExtractor: the eight labelled metadata patterns, the line
    parser that tries them in order, and the loop that reads the first
    forty lines of a book and records the fields it finds. */
module Header {
  import opened Wrappers
  import opened Text

  /** The keys of the notebook's pattern table, in their declared order. */
  datatype Field =
    | Title | Author | PostingDate | ReleaseDate
    | FirstPosted | LastUpdated | Language | CharacterSetEncoding

  /** The order in which `parse_line` tries the patterns. */
  const FieldOrder: seq<Field> :=
    [Title, Author, PostingDate, ReleaseDate, FirstPosted, LastUpdated, Language, CharacterSetEncoding]

  /** Number of lines the header loop reads. */
  const HeaderLines: nat := 40

  /** The row key a field is stored under; it is also the label text of its pattern. */
  function Column(f: Field): string
  {
    match f
    case Title => "Title"
    case Author => "Author"
    case PostingDate => "Posting Date"
    case ReleaseDate => "Release Date"
    case FirstPosted => "First Posted"
    case LastUpdated => "Last Updated"
    case Language => "Language"
    case CharacterSetEncoding => "Character Set Encoding"
  }

  /** The literal text a line must start with: the label, a colon and one space. */
  function Prefix(f: Field): string
  {
    Column(f) + ": "
  }

  /** Anchored match of `<prefix>(?P<value>.*)\n`: the line starts with the
      prefix, and the value runs up to the first line feed after it, which
      must exist because `.` never matches a line feed. */
  function MatchPrefix(p: string, line: string): (r: Option<string>)
    ensures r.Some? ==> |r.value| < |line|
  {
    if p <= line then
      var k := IndexFrom(line, '\n', |p|);
      if k < |line| then Some(line[|p|..k]) else None
    else
      None
  }

  /** A prefix pattern matches exactly when the line starts with the prefix
      and a line feed follows it; the value is the text in between. */
  lemma MatchPrefixSpec(p: string, line: string)
    ensures var r := MatchPrefix(p, line);
            (r.Some? ==> p + r.value + "\n" <= line && '\n' !in r.value) &&
            (r.None? <==> !(p <= line) || '\n' !in line[|p|..])
  {
    if p <= line {
      var k := IndexFrom(line, '\n', |p|);
      if k < |line| {
        assert line[..k + 1] == p + line[|p|..k] + "\n";
      } else {
        assert forall i :: |p| <= i < |line| ==> line[i] == line[|p|..][i - |p|];
      }
    }
  }

  /** The pattern of field `f`, `<label>: (?P<value>.*)\n`, matched at the start of the line. */
  function MatchField(f: Field, line: string): (r: Option<string>)
    ensures r.Some? ==> |r.value| < |line|
  {
    MatchPrefix(Prefix(f), line)
  }

  /** A label pattern matches exactly when the line starts with the label's
      prefix and a line feed follows it; the value is the text in between. */
  lemma MatchFieldSpec(f: Field, line: string)
    ensures var r := MatchField(f, line);
            (r.Some? ==> Prefix(f) + r.value + "\n" <= line && '\n' !in r.value) &&
            (r.None? <==> !(Prefix(f) <= line) || '\n' !in line[|Prefix(f)|..])
  {
    MatchPrefixSpec(Prefix(f), line);
  }

  /** Two different fields' prefixes differ at index 0 or index 2. */
  lemma PrefixesDiffer(f: Field, g: Field)
    requires f != g
    ensures |Prefix(f)| > 2 && |Prefix(g)| > 2
    ensures Prefix(f)[0] != Prefix(g)[0] || Prefix(f)[2] != Prefix(g)[2]
  {
  }

  /** A line matches at most one pattern, so the order of the table only
      fixes which one is tried first, never which one wins. */
  lemma AtMostOneField(f: Field, g: Field, line: string)
    requires MatchField(f, line).Some? && MatchField(g, line).Some?
    ensures f == g
  {
    if f != g {
      PrefixesDiffer(f, g);
    }
  }

  /** `fs[i]` is `f`, and no field before it matches the line. */
  ghost predicate FirstMatchAt(fs: seq<Field>, line: string, i: int, f: Field)
  {
    0 <= i < |fs| && fs[i] == f && forall j :: 0 <= j < i ==> MatchField(fs[j], line).None?
  }

  /** No field of `fs` matches the line. */
  ghost predicate NoneMatch(fs: seq<Field>, line: string)
  {
    forall i :: 0 <= i < |fs| ==> MatchField(fs[i], line).None?
  }

  /** The loop of `parse_line` over the fields `fs`, returning the first match. */
  function ParseFrom(fs: seq<Field>, line: string): (r: Option<(Field, string)>)
    ensures r.Some? ==> MatchField(r.value.0, line) == Some(r.value.1)
    ensures r.Some? ==> exists i :: FirstMatchAt(fs, line, i, r.value.0)
    ensures r.None? <==> NoneMatch(fs, line)
  {
    if fs == [] then None
    else
      match MatchField(fs[0], line)
      case Some(v) =>
        assert FirstMatchAt(fs, line, 0, fs[0]);
        Some((fs[0], v))
      case None =>
        var r := ParseFrom(fs[1..], line);
        ParseFromStep(fs, line, r);
        r
  }

  /** The contract of `ParseFrom` carries over from the tail of the field list
      when the first field does not match. */
  lemma ParseFromStep(fs: seq<Field>, line: string, r: Option<(Field, string)>)
    requires fs != [] && MatchField(fs[0], line).None?
    requires r.Some? ==> exists i :: FirstMatchAt(fs[1..], line, i, r.value.0)
    requires r.None? <==> NoneMatch(fs[1..], line)
    ensures r.Some? ==> exists i :: FirstMatchAt(fs, line, i, r.value.0)
    ensures r.None? <==> NoneMatch(fs, line)
  {
    if r.Some? {
      var i :| FirstMatchAt(fs[1..], line, i, r.value.0);
      FirstMatchShift(fs, line, i, r.value.0);
    }
    NoneMatchShift(fs, line);
  }

  /** A first match in the tail of the field list is a first match one place
      further on in the whole list, when the head does not match. */
  lemma FirstMatchShift(fs: seq<Field>, line: string, i: int, f: Field)
    requires fs != [] && MatchField(fs[0], line).None? && FirstMatchAt(fs[1..], line, i, f)
    ensures FirstMatchAt(fs, line, i + 1, f)
  {
    AllShift(fs, g => MatchField(g, line).None?, i);
  }

  /** When the head does not match, no field of the list matches exactly when
      no field of its tail does. */
  lemma NoneMatchShift(fs: seq<Field>, line: string)
    requires fs != [] && MatchField(fs[0], line).None?
    ensures NoneMatch(fs, line) <==> NoneMatch(fs[1..], line)
  {
    if NoneMatch(fs[1..], line) {
      AllShift(fs, g => MatchField(g, line).None?, |fs| - 1);
    }
    if NoneMatch(fs, line) {
      AllUnshift(fs, g => MatchField(g, line).None?);
    }
  }

  /** `ok` holding on the head and on the first `n` elements of the tail
      holds on the first `n + 1` elements. */
  lemma AllShift<T>(fs: seq<T>, ok: T -> bool, n: int)
    requires fs != [] && 0 <= n < |fs| && ok(fs[0])
    requires forall j :: 0 <= j < n ==> ok(fs[1..][j])
    ensures forall j :: 0 <= j < n + 1 ==> ok(fs[j])
  {
    forall j | 0 < j < n + 1 ensures ok(fs[j]) {
      assert fs[j] == fs[1..][j - 1];
    }
  }

  /** `ok` holding on every element holds on every element of the tail. */
  lemma AllUnshift<T>(fs: seq<T>, ok: T -> bool)
    requires fs != [] && forall j :: 0 <= j < |fs| ==> ok(fs[j])
    ensures forall j :: 0 <= j < |fs| - 1 ==> ok(fs[1..][j])
  {
    forall j | 0 <= j < |fs| - 1 ensures ok(fs[1..][j]) {
      assert fs[1..][j] == fs[j + 1];
    }
  }

  /** Every field appears in the table order. */
  lemma FieldOrderComplete(f: Field)
    ensures exists i :: 0 <= i < |FieldOrder| && FieldOrder[i] == f
  {
    match f
    case Title => assert FieldOrder[0] == f;
    case Author => assert FieldOrder[1] == f;
    case PostingDate => assert FieldOrder[2] == f;
    case ReleaseDate => assert FieldOrder[3] == f;
    case FirstPosted => assert FieldOrder[4] == f;
    case LastUpdated => assert FieldOrder[5] == f;
    case Language => assert FieldOrder[6] == f;
    case CharacterSetEncoding => assert FieldOrder[7] == f;
  }

  /** `parse_line`: the first field, in table order, whose pattern matches the line. */
  function ParseLine(line: string): (r: Option<(Field, string)>)
    ensures r.Some? ==> MatchField(r.value.0, line) == Some(r.value.1)
    ensures r.None? <==> forall f :: MatchField(f, line).None?
  {
    var r := ParseFrom(FieldOrder, line);
    NoFieldMatched(line, r);
    r
  }

  /** `ParseFrom` over the whole table finds nothing only when no field matches. */
  lemma NoFieldMatched(line: string, r: Option<(Field, string)>)
    requires r.None? <==> NoneMatch(FieldOrder, line)
    ensures r.None? <==> forall f :: MatchField(f, line).None?
  {
    if r.None? {
      forall f ensures MatchField(f, line).None? {
        FieldOrderComplete(f);
        var i :| 0 <= i < |FieldOrder| && FieldOrder[i] == f;
      }
    }
  }

  /** A line yields field `f` with value `v` exactly when `f`'s own pattern
      matches it with that value. */
  lemma ParseLineExact(line: string, f: Field, v: string)
    ensures ParseLine(line) == Some((f, v)) <==> MatchField(f, line) == Some(v)
  {
    if MatchField(f, line) == Some(v) && ParseLine(line) != Some((f, v)) {
      var g := ParseLine(line).value.0;
      AtMostOneField(f, g, line);
    }
  }

  /** A title line yields its value without the label and the line feed. */
  lemma TitleLineExample()
    ensures ParseLine("Title: Moby Dick\n") == Some((Title, "Moby Dick"))
  {
    var line := "Title: Moby Dick\n";
    assert Prefix(Title) == "Title: " && Prefix(Title) <= line;
    assert forall i :: 7 <= i < 16 ==> line[i] != '\n';
    assert IndexFrom(line, '\n', 7) == 16;
    assert line[7..16] == "Moby Dick";
    assert MatchField(Title, line) == Some("Moby Dick");
    ParseLineExact(line, Title, "Moby Dick");
  }

  /** A line without a line feed, such as a last line or the empty string
      `readline` returns at end of file, yields nothing. */
  lemma UnterminatedLineYieldsNothing(line: string)
    requires '\n' !in line
    ensures ParseLine(line) == None
  {
    forall f ensures MatchField(f, line).None? {
      assert !(Prefix(f) <= line) || '\n' !in line[|Prefix(f)|..];
    }
  }

  /** The read position after one `readline` call at `pos`: just past the
      next line feed, or the end of the text when no line feed follows. */
  function NextLine(raw: string, pos: nat): (e: nat)
    ensures pos >= |raw| ==> e == pos
    ensures pos < |raw| ==> pos < e <= |raw| && (e == |raw| || raw[e - 1] == '\n')
  {
    if pos >= |raw| then pos
    else
      var k := IndexFrom(raw, '\n', pos);
      if k < |raw| then k + 1 else |raw|
  }

  /** `f.readline()` at read position `pos`: the text up to and including the
      next line feed, or the rest of the text on a last line without one, or
      the empty string at end of file. */
  function ReadLine(raw: string, pos: nat): (line: string)
    ensures pos + |line| == NextLine(raw, pos)
    ensures pos < |raw| ==> |line| > 0 && (pos + |line| == |raw| || line[|line| - 1] == '\n')
  {
    if pos >= |raw| then [] else raw[pos..NextLine(raw, pos)]
  }

  /** A line read by `readline` is the text between the two read positions and
      holds no line feed before its last character. */
  lemma ReadLineStopsAtLineFeed(raw: string, pos: nat)
    requires pos < |raw|
    ensures ReadLine(raw, pos) == raw[pos..NextLine(raw, pos)]
    ensures forall i :: 0 <= i < |ReadLine(raw, pos)| - 1 ==> ReadLine(raw, pos)[i] != '\n'
  {
    var line := ReadLine(raw, pos);
    var k := IndexFrom(raw, '\n', pos);
    forall i | 0 <= i < |line| - 1 ensures line[i] != '\n' {
      assert line[i] == raw[pos + i];
    }
  }

  /** The read position after `k` successive `readline` calls from `pos`. */
  function PosAfter(raw: string, pos: nat, k: nat): nat
    decreases k
  {
    if k == 0 then pos else PosAfter(raw, NextLine(raw, pos), k - 1)
  }

  /** One more `readline` call moves the read position past the line it reads. */
  lemma {:induction false} PosAfterSnoc(raw: string, pos: nat, k: nat)
    ensures PosAfter(raw, pos, k + 1) == NextLine(raw, PosAfter(raw, pos, k))
    decreases k
  {
    if k > 0 {
      PosAfterSnoc(raw, NextLine(raw, pos), k - 1);
    }
  }

  /** At end of file the read position no longer moves. */
  lemma {:induction false} PosAfterAtEnd(raw: string, j: nat)
    ensures PosAfter(raw, |raw|, j) == |raw|
    decreases j
  {
    if j > 0 {
      PosAfterAtEnd(raw, j - 1);
    }
  }

  /** Number of non-empty lines `readline` returns from position `pos` on. */
  function LineCount(raw: string, pos: nat): (n: nat)
    ensures n <= |raw| - pos || pos > |raw|
    decreases |raw| - pos
  {
    if pos >= |raw| then 0 else 1 + LineCount(raw, NextLine(raw, pos))
  }

  /** The lines `readline` returns one after another from position `pos` until end of file. */
  function LinesFrom(raw: string, pos: nat): (ls: seq<string>)
  {
    seq(LineCount(raw, pos), j requires 0 <= j < LineCount(raw, pos) => ReadLine(raw, PosAfter(raw, pos, j)))
  }

  /** The lines of the whole text. */
  function Lines(raw: string): seq<string>
  {
    LinesFrom(raw, 0)
  }

  /** Reading one line before the end of the text. */
  lemma LinesFromStep(raw: string, pos: nat)
    requires pos < |raw|
    ensures LinesFrom(raw, pos) == [ReadLine(raw, pos)] + LinesFrom(raw, NextLine(raw, pos))
  {
    var next := NextLine(raw, pos);
    var ls, tail := LinesFrom(raw, pos), LinesFrom(raw, next);
    assert |ls| == 1 + |tail|;
    forall j | 0 < j < |ls| ensures ls[j] == tail[j - 1] {
      assert PosAfter(raw, pos, j) == PosAfter(raw, next, j - 1);
    }
    ConsOf(ls, ReadLine(raw, pos), tail);
  }

  /** A sequence whose first element is `x` and whose other elements are those of `tail`. */
  lemma ConsOf<T>(ls: seq<T>, x: T, tail: seq<T>)
    requires |ls| == 1 + |tail| && ls[0] == x
    requires forall j :: 0 < j < |ls| ==> ls[j] == tail[j - 1]
    ensures ls == [x] + tail
  {
  }

  /** Once the lines from `pos` are used up, the read position is the end of the text. */
  lemma {:induction false} PosAfterLines(raw: string, pos: nat, j: nat)
    requires pos <= |raw| && LineCount(raw, pos) <= j
    ensures PosAfter(raw, pos, j) == |raw|
    decreases j
  {
    if pos == |raw| {
      PosAfterAtEnd(raw, j);
    } else {
      PosAfterLines(raw, NextLine(raw, pos), j - 1);
    }
  }

  /** Joining lines back together. */
  function Concat(ls: seq<string>): string
  {
    if ls == [] then [] else ls[0] + Concat(ls[1..])
  }

  /** Joining a line in front of further lines. */
  lemma ConcatCons(line: string, rest: seq<string>)
    ensures Concat([line] + rest) == line + Concat(rest)
  {
    assert ([line] + rest)[0] == line && ([line] + rest)[1..] == rest;
  }

  /** Reading line by line loses nothing: the lines join back into the text. */
  lemma {:induction false} LinesFromJoin(raw: string, pos: nat)
    requires pos <= |raw|
    ensures Concat(LinesFrom(raw, pos)) == raw[pos..]
    decreases |raw| - pos
  {
    if pos < |raw| {
      var next := NextLine(raw, pos);
      LinesFromStep(raw, pos);
      ConcatCons(ReadLine(raw, pos), LinesFrom(raw, next));
      LinesFromJoin(raw, next);
      ReadLineStopsAtLineFeed(raw, pos);
      SplitAt(raw, pos, next);
    } else {
      assert LinesFrom(raw, pos) == [];
    }
  }

  /** The text from `pos` is the text up to `next` followed by the text from `next`. */
  lemma SplitAt(raw: string, pos: nat, next: nat)
    requires pos <= next <= |raw|
    ensures raw[pos..] == raw[pos..next] + raw[next..]
  {
  }

  /** The lines join back into the whole text. */
  lemma LinesJoin(raw: string)
    ensures Concat(Lines(raw)) == raw
  {
    LinesFromJoin(raw, 0);
  }

  /** The results of the first `k` calls of `readline` on the text, in order. */
  function ReadLines(raw: string, k: nat): (ls: seq<string>)
  {
    seq(k, j requires 0 <= j < k => ReadLine(raw, PosAfter(raw, 0, j)))
  }

  /** The forty `readline` results the header loop sees. */
  function HeaderWindow(raw: string): seq<string>
  {
    ReadLines(raw, HeaderLines)
  }

  /** One more `readline` call appends the line read at the current position. */
  lemma ReadLinesSnoc(raw: string, k: nat)
    ensures ReadLines(raw, k + 1) == ReadLines(raw, k) + [ReadLine(raw, PosAfter(raw, 0, k))]
  {
    var ls, prev := ReadLines(raw, k + 1), ReadLines(raw, k);
    forall j | 0 <= j < k ensures ls[j] == prev[j] { }
  }

  /** The `j`-th of `k` reads is the `j`-th line of the text, or the empty
      string once the file is exhausted. */
  lemma ReadLinesAt(raw: string, k: nat, j: nat)
    requires j < k
    ensures ReadLines(raw, k)[j] == if j < |Lines(raw)| then Lines(raw)[j] else []
  {
    if j >= |Lines(raw)| {
      PosAfterLines(raw, 0, j);
      assert |ReadLine(raw, |raw|)| == 0;
    }
  }

  /** What `parse_line` returned for each line, in order. */
  function ParsedLines(lines: seq<string>): (ps: seq<Option<(Field, string)>>)
    ensures |ps| == |lines|
    ensures forall i :: 0 <= i < |lines| ==> ps[i] == ParseLine(lines[i])
  {
    seq(|lines|, i requires 0 <= i < |lines| => ParseLine(lines[i]))
  }

  /** The row the loop body builds from a sequence of parse results: each
      match is written into the row over any earlier value for its field. */
  function Fold(ps: seq<Option<(Field, string)>>): map<Field, string>
  {
    if ps == [] then map[]
    else
      var row := Fold(ps[..|ps| - 1]);
      match ps[|ps| - 1]
      case None => row
      case Some((f, v)) => row[f := v]
  }

  /** The row fields after the loop body has run over `lines` in order. */
  function HeaderFields(lines: seq<string>): map<Field, string>
  {
    Fold(ParsedLines(lines))
  }

  /** A parse result names field `f`. */
  predicate Names(p: Option<(Field, string)>, f: Field)
  {
    p.Some? && p.value.0 == f
  }

  /** Last write wins in the fold: the latest result for `f` supplies its value. */
  lemma {:induction false} FoldLastWins(ps: seq<Option<(Field, string)>>, i: nat, f: Field, v: string)
    requires i < |ps| && ps[i] == Some((f, v))
    requires forall j :: i < j < |ps| ==> !Names(ps[j], f)
    ensures f in Fold(ps) && Fold(ps)[f] == v
    decreases |ps|
  {
    var last := |ps| - 1;
    if i < last {
      var init := ps[..last];
      assert init[i] == ps[i];
      forall j | i < j < |init| ensures !Names(init[j], f) {
        assert init[j] == ps[j];
      }
      FoldLastWins(init, i, f, v);
      assert !Names(ps[last], f);
    }
  }

  /** A field no result names is absent from the fold. */
  lemma {:induction false} FoldAbsent(ps: seq<Option<(Field, string)>>, f: Field)
    requires forall j :: 0 <= j < |ps| ==> !Names(ps[j], f)
    ensures f !in Fold(ps)
    decreases |ps|
  {
    if ps != [] {
      var last := |ps| - 1;
      var init := ps[..last];
      forall j | 0 <= j < |init| ensures !Names(init[j], f) {
        assert init[j] == ps[j];
      }
      FoldAbsent(init, f);
      assert !Names(ps[last], f);
    }
  }

  /** `ps[i]` gives `f` the value `v`, and no later result names `f`. */
  ghost predicate LastNaming(ps: seq<Option<(Field, string)>>, i: int, f: Field, v: string)
  {
    0 <= i < |ps| && ps[i] == Some((f, v)) && forall j :: i < j < |ps| ==> !Names(ps[j], f)
  }

  /** Every value in the fold comes from the latest result that names its field. */
  lemma {:induction false} FoldSource(ps: seq<Option<(Field, string)>>, f: Field)
    requires f in Fold(ps)
    ensures exists i :: LastNaming(ps, i, f, Fold(ps)[f])
    decreases |ps|
  {
    var last := |ps| - 1;
    var init := ps[..last];
    if !Names(ps[last], f) {
      assert f in Fold(init) && Fold(init)[f] == Fold(ps)[f];
      FoldSource(init, f);
      var i :| LastNaming(init, i, f, Fold(init)[f]);
      assert ps[i] == init[i];
      forall j | i < j < |ps| ensures !Names(ps[j], f) {
        if j < last { assert ps[j] == init[j]; }
      }
      assert LastNaming(ps, i, f, Fold(ps)[f]);
    } else {
      assert LastNaming(ps, last, f, Fold(ps)[f]);
    }
  }

  /** A field matched on line `i` and on no later line holds the value
      captured on line `i`: later matches overwrite earlier ones. */
  lemma LastMatchWins(lines: seq<string>, i: nat, f: Field, v: string)
    requires i < |lines| && MatchField(f, lines[i]) == Some(v)
    requires forall j :: i < j < |lines| ==> MatchField(f, lines[j]).None?
    ensures f in HeaderFields(lines) && HeaderFields(lines)[f] == v
  {
    var ps := ParsedLines(lines);
    ParseLineExact(lines[i], f, v);
    forall j | i < j < |ps| ensures !Names(ps[j], f) {
      if Names(ps[j], f) {
        ParseLineExact(lines[j], f, ps[j].value.1);
      }
    }
    FoldLastWins(ps, i, f, v);
  }

  /** A field whose pattern matches none of the lines is absent from the row. */
  lemma UnmatchedFieldAbsent(lines: seq<string>, f: Field)
    requires forall j :: 0 <= j < |lines| ==> MatchField(f, lines[j]).None?
    ensures f !in HeaderFields(lines)
  {
    var ps := ParsedLines(lines);
    forall j | 0 <= j < |ps| ensures !Names(ps[j], f) {
      if Names(ps[j], f) {
        ParseLineExact(lines[j], f, ps[j].value.1);
      }
    }
    FoldAbsent(ps, f);
  }

  /** Line `i` captures `v` for `f`, and no later line matches `f`. */
  ghost predicate LastMatch(lines: seq<string>, i: int, f: Field, v: string)
  {
    0 <= i < |lines| && MatchField(f, lines[i]) == Some(v) &&
    forall j :: i < j < |lines| ==> MatchField(f, lines[j]).None?
  }

  /** The latest parse result naming a field comes from the latest line matching it. */
  lemma LastNamingIsLastMatch(lines: seq<string>, i: nat, f: Field, v: string)
    requires LastNaming(ParsedLines(lines), i, f, v)
    ensures LastMatch(lines, i, f, v)
  {
    var ps := ParsedLines(lines);
    ParseLineExact(lines[i], f, v);
    forall j | i < j < |lines| ensures MatchField(f, lines[j]).None? {
      if MatchField(f, lines[j]).Some? {
        ParseLineExact(lines[j], f, MatchField(f, lines[j]).value);
      }
    }
  }

  /** Every value in the row was captured from some line by its own field's
      pattern, and no later line matched that field. */
  lemma FieldComesFromLastMatch(lines: seq<string>, f: Field)
    requires f in HeaderFields(lines)
    ensures exists i :: LastMatch(lines, i, f, HeaderFields(lines)[f])
  {
    var ps := ParsedLines(lines);
    var v := Fold(ps)[f];
    FoldSource(ps, f);
    var i :| LastNaming(ps, i, f, v);
    LastNamingIsLastMatch(lines, i, f, v);
  }

  /** A label that appears only on line 41 or later (or not at all) leaves its field absent. */
  lemma BeyondWindowIgnored(raw: string, f: Field)
    requires forall j :: 0 <= j < |Lines(raw)| && j < HeaderLines ==> MatchField(f, Lines(raw)[j]).None?
    ensures f !in HeaderFields(HeaderWindow(raw))
  {
    var w := HeaderWindow(raw);
    forall j | 0 <= j < |w| ensures MatchField(f, w[j]).None? {
      ReadLinesAt(raw, HeaderLines, j);
    }
    UnmatchedFieldAbsent(w, f);
  }

  /** The header loop: forty calls of `readline` from the start of the file,
      each line handed to `parse_line`, each match written into the row over
      any earlier value for the same field. */
  method ReadHeader(raw: string) returns (row: map<Field, string>)
    ensures row == HeaderFields(HeaderWindow(raw))
  {
    row := map[];
    var pos: nat := 0;
    for i := 0 to HeaderLines
      invariant pos == PosAfter(raw, 0, i)
      invariant row == HeaderFields(ReadLines(raw, i))
    {
      var line := ReadLine(raw, pos);
      var parsed := ParseLine(line);
      ReadHeaderStep(raw, i, row, parsed);
      if parsed.Some? {
        row := row[parsed.value.0 := parsed.value.1];
      }
      pos := pos + |line|;
    }
  }

  /** One pass of the loop body: the read position moves past the line read,
      and the row kept after the `i`-th read is the row of the first `i + 1` reads. */
  lemma ReadHeaderStep(raw: string, i: nat, row: map<Field, string>, parsed: Option<(Field, string)>)
    requires row == HeaderFields(ReadLines(raw, i))
    requires parsed == ParseLine(ReadLine(raw, PosAfter(raw, 0, i)))
    ensures PosAfter(raw, 0, i) + |ReadLine(raw, PosAfter(raw, 0, i))| == PosAfter(raw, 0, i + 1)
    ensures HeaderFields(ReadLines(raw, i + 1)) ==
            if parsed.Some? then row[parsed.value.0 := parsed.value.1] else row
  {
    PosAfterSnoc(raw, 0, i);
    ReadLinesSnoc(raw, i);
    FoldStep(ReadLines(raw, i), ReadLine(raw, PosAfter(raw, 0, i)));
  }

  /** Reading one more line extends the parse results by that line's result. */
  lemma FoldStep(seen: seq<string>, line: string)
    ensures Fold(ParsedLines(seen + [line])) ==
            if ParseLine(line).Some?
            then Fold(ParsedLines(seen))[ParseLine(line).value.0 := ParseLine(line).value.1]
            else Fold(ParsedLines(seen))
  {
    var ps := ParsedLines(seen + [line]);
    assert ps[..|seen|] == ParsedLines(seen);
  }
}
