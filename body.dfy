/** BodySegmenter: locating the start and end markers in the full text,
    slicing the body between them, and the statistics derived from it. */
module Body {
  import opened Wrappers
  import opened Text

  /** Index of the line feed that ends the line holding position `p`, or
      the text length on a last line without one. */
  function LineEnd(raw: string, p: nat): (e: nat)
    requires p <= |raw|
    ensures p <= e <= |raw|
    ensures e == |raw| || raw[e] == '\n'
    ensures forall i :: p <= i < e ==> raw[i] != '\n'
  {
    IndexFrom(raw, '\n', p)
  }

  /** The pattern `\*\*\*.*<kw>.*` matches at `p`: three asterisks at `p`,
      then `kw` later on the same line (`.` never crosses a line feed). */
  predicate MarkerAt(raw: string, kw: string, p: int)
  {
    0 <= p && p + 3 <= |raw| && raw[p..p + 3] == "***" &&
    Occurs(raw[p + 3..LineEnd(raw, p + 3)], kw)
  }

  /** `p` is where `re.search` finds the marker pattern: it matches there and nowhere earlier. */
  ghost predicate FirstMarker(raw: string, kw: string, p: int)
  {
    MarkerAt(raw, kw, p) && forall q :: 0 <= q < p ==> !MarkerAt(raw, kw, q)
  }

  /** Scan for the leftmost position at or after `from` where the marker pattern matches. */
  function SearchMarker(raw: string, kw: string, from: nat): (r: Option<nat>)
    requires from <= |raw|
    ensures r.Some? ==> from <= r.value && MarkerAt(raw, kw, r.value)
    ensures r.Some? ==> forall q :: from <= q < r.value ==> !MarkerAt(raw, kw, q)
    ensures r.None? ==> forall q :: from <= q ==> !MarkerAt(raw, kw, q)
    decreases |raw| - from
  {
    if MarkerAt(raw, kw, from) then Some(from)
    else if from == |raw| then None
    else SearchMarker(raw, kw, from + 1)
  }

  /** `re.search(pattern, raw)`: the position of the first marker, or none. */
  function FindMarker(raw: string, kw: string): (r: Option<nat>)
    ensures r.Some? ==> FirstMarker(raw, kw, r.value)
    ensures r.None? <==> forall q :: !MarkerAt(raw, kw, q)
  {
    SearchMarker(raw, kw, 0)
  }

  /** The two slice indices of the notebook: `start` is the `.end()` of the
      START match and `stop` the `.start()` of the END match. Either search
      failing raises in the notebook; here the result is absent. */
  function BodyBounds(raw: string): (r: Option<(nat, nat)>)
    ensures r.None? <==> (forall q :: !MarkerAt(raw, "START", q)) || (forall q :: !MarkerAt(raw, "END", q))
    ensures r.Some? ==> r.value.0 <= |raw| && (r.value.0 == |raw| || raw[r.value.0] == '\n')
    ensures r.Some? ==> r.value.1 + 3 <= |raw| && raw[r.value.1..r.value.1 + 3] == "***"
  {
    match FindMarker(raw, "START")
    case None => None
    case Some(p) =>
      match FindMarker(raw, "END")
      case None => None
      case Some(q) => Some((LineEnd(raw, p + 3), q))
  }

  /** The body starts at the end of the line holding the first START marker
      and stops at the first END marker. */
  lemma BodyBoundsMarkers(raw: string)
    requires BodyBounds(raw).Some?
    ensures exists p :: FirstMarker(raw, "START", p) && BodyBounds(raw).value.0 == LineEnd(raw, p + 3)
    ensures FirstMarker(raw, "END", BodyBounds(raw).value.1)
  {
    var p := FindMarker(raw, "START").value;
    assert FirstMarker(raw, "START", p);
  }

  /** The book text between the markers, `raw[start:stop]` (Python's slice,
      empty when `stop <= start`), or none when a marker is missing. */
  function ExtractBody(raw: string): (r: Option<string>)
    ensures r.Some? <==> BodyBounds(raw).Some?
    ensures r.Some? ==> |r.value| <= |raw|
    ensures r.Some? ==> r.value == [] || r.value[0] == '\n'
  {
    match BodyBounds(raw)
    case None => None
    case Some((start, stop)) => Some(if stop <= start then [] else raw[start..stop])
  }

  /** An END marker at or before the end of the first START line (for
      instance a START line naming a title that contains "END", such as
      "LEGEND") gives an empty body, since the END search covers the whole
      text rather than what follows the START marker. */
  lemma EarlyEndGivesEmptyBody(raw: string, p: nat, q: nat)
    requires FirstMarker(raw, "START", p)
    requires MarkerAt(raw, "END", q) && q <= LineEnd(raw, p + 3)
    ensures ExtractBody(raw) == Some([])
  {
    var sm := FindMarker(raw, "START");
    var em := FindMarker(raw, "END");
    assert sm.Some? && em.Some?;
    FirstMarkerUnique(raw, "START", sm.value, p);
    assert em.value <= q;
    assert BodyBounds(raw) == Some((LineEnd(raw, p + 3), em.value));
  }

  /** The body is the text from the end of the first START line up to the
      first END marker, and it is empty when that marker comes no later. */
  lemma BodyBetweenMarkers(raw: string, p: nat, q: nat)
    requires FirstMarker(raw, "START", p) && FirstMarker(raw, "END", q)
    ensures ExtractBody(raw) ==
            Some(if q <= LineEnd(raw, p + 3) then [] else raw[LineEnd(raw, p + 3)..q])
  {
    var sm := FindMarker(raw, "START");
    var em := FindMarker(raw, "END");
    assert sm.Some? && em.Some?;
    FirstMarkerUnique(raw, "START", sm.value, p);
    FirstMarkerUnique(raw, "END", em.value, q);
  }

  /** An occurrence of `kw` at `i`, after the three asterisks at `p`, with
      no line feed from the asterisks to the occurrence's end: what the
      `.*<kw>` part of the marker pattern matches. */
  ghost predicate KeywordOnLine(raw: string, kw: string, p: int, i: int)
  {
    0 <= p && p + 3 <= i && OccursAt(raw, kw, i) &&
    forall j :: p + 3 <= j < i + |kw| ==> raw[j] != '\n'
  }

  /** A keyword found in the rest of the marker line lies on the line in the text. */
  lemma KeywordInLineRest(raw: string, kw: string, p: nat)
    requires p + 3 <= |raw| && Occurs(raw[p + 3..LineEnd(raw, p + 3)], kw)
    ensures exists i :: KeywordOnLine(raw, kw, p, i)
  {
    var from := p + 3;
    var sub := raw[from..LineEnd(raw, from)];
    var k :| OccursAt(sub, kw, k);
    var a, b := raw[from + k..from + k + |kw|], sub[k..k + |kw|];
    forall x | 0 <= x < |kw| ensures a[x] == b[x] {
      assert sub[k + x] == raw[from + k + x];
    }
    assert KeywordOnLine(raw, kw, p, from + k);
  }

  /** A keyword lying on the marker line in the text is found in the rest of the line. */
  lemma KeywordOnLineInRest(raw: string, kw: string, p: nat, i: int)
    requires p + 3 <= |raw| && KeywordOnLine(raw, kw, p, i)
    ensures Occurs(raw[p + 3..LineEnd(raw, p + 3)], kw)
  {
    var from := p + 3;
    var e := LineEnd(raw, from);
    var sub := raw[from..e];
    assert i + |kw| <= e;
    var k := i - from;
    var a, b := sub[k..k + |kw|], raw[i..i + |kw|];
    forall x | 0 <= x < |kw| ensures a[x] == b[x] {
      assert sub[k + x] == raw[i + x];
    }
    assert OccursAt(sub, kw, k);
  }

  /** The marker pattern read as a regular expression: three asterisks at
      `p`, then an occurrence of `kw` with no line feed between the
      asterisks and the occurrence's end. */
  lemma MarkerAtSpec(raw: string, kw: string, p: int)
    ensures MarkerAt(raw, kw, p) <==>
            0 <= p && p + 3 <= |raw| && raw[p..p + 3] == "***" &&
            exists i :: KeywordOnLine(raw, kw, p, i)
  {
    if 0 <= p && p + 3 <= |raw| && raw[p..p + 3] == "***" {
      if Occurs(raw[p + 3..LineEnd(raw, p + 3)], kw) {
        KeywordInLineRest(raw, kw, p);
      }
      if exists i :: KeywordOnLine(raw, kw, p, i) {
        var i :| KeywordOnLine(raw, kw, p, i);
        KeywordOnLineInRest(raw, kw, p, i);
      }
    }
  }

  /** There is only one first marker. */
  lemma FirstMarkerUnique(raw: string, kw: string, p: nat, p': nat)
    requires FirstMarker(raw, kw, p) && FirstMarker(raw, kw, p')
    ensures p == p'
  {
  }

  /** If `kw` occurs in `s` it occurs in every sequence that `s` begins. */
  lemma OccursInLonger(kw: string, s: string, t: string)
    requires Occurs(s, kw) && s <= t
    ensures Occurs(t, kw)
  {
    var i :| OccursAt(s, kw, i);
    assert t[i..i + |kw|] == s[i..i + |kw|];
    assert OccursAt(t, kw, i);
  }

  /** Within a slice `b` of `raw` starting at `start`, the rest of a line in
      `b` is a prefix of the rest of the same line in `raw`. */
  lemma SliceLine(raw: string, start: nat, stop: nat, x: nat)
    requires start < stop <= |raw| && x <= stop - start
    ensures var b := raw[start..stop];
            b[x..LineEnd(b, x)] <= raw[start + x..LineEnd(raw, start + x)]
  {
    var b := raw[start..stop];
    var e := LineEnd(b, x);
    var e' := LineEnd(raw, start + x);
    assert start + e <= e';
    forall i | 0 <= i < e - x ensures b[x..e][i] == raw[start + x..e'][i] {
      assert b[x + i] == raw[start + x + i];
    }
  }

  /** The body never contains an END marker: the first one in the text is
      where the body stops. */
  lemma BodyHasNoEndMarker(raw: string)
    requires ExtractBody(raw).Some?
    ensures forall q :: !MarkerAt(ExtractBody(raw).value, "END", q)
  {
    var (start, stop) := BodyBounds(raw).value;
    var b := ExtractBody(raw).value;
    BodyBoundsMarkers(raw);
    forall q | MarkerAt(b, "END", q) ensures false {
      MarkerInSlice(raw, start, stop, q);
    }
  }

  /** A marker inside a slice of the text is a marker of the text itself. */
  lemma MarkerInSlice(raw: string, start: nat, stop: nat, q: nat)
    requires start < stop <= |raw|
    requires MarkerAt(raw[start..stop], "END", q)
    ensures MarkerAt(raw, "END", start + q)
  {
    var b := raw[start..stop];
    SliceLine(raw, start, stop, q + 3);
    OccursInLonger("END", b[q + 3..LineEnd(b, q + 3)], raw[start + q + 3..LineEnd(raw, start + q + 3)]);
    var x, y := raw[start + q..start + q + 3], b[q..q + 3];
    forall i | 0 <= i < 3 ensures x[i] == y[i] {
      assert b[q + i] == raw[start + q + i];
    }
    assert x == y;
  }

  /** The characters `[A-Za-z0-9.]` that survive normalisation. */
  predicate Kept(c: char)
  {
    'A' <= c <= 'Z' || 'a' <= c <= 'z' || '0' <= c <= '9' || c == '.'
  }

  /** Drop the maximal leading run of characters that are not kept. */
  function SkipRun(s: string): (t: string)
    ensures |t| <= |s| && t == s[|s| - |t|..]
    ensures t == [] || Kept(t[0])
    ensures forall i :: 0 <= i < |s| - |t| ==> !Kept(s[i])
  {
    if s == [] || Kept(s[0]) then s else SkipRun(s[1..])
  }

  /** The kept characters of `s`, in order. */
  function KeptChars(s: string): string
  {
    if s == [] then [] else (if Kept(s[0]) then [s[0]] else []) + KeptChars(s[1..])
  }

  /** The characters of `s` other than spaces, in order. */
  function NonSpace(s: string): string
  {
    if s == [] then [] else (if s[0] != ' ' then [s[0]] else []) + NonSpace(s[1..])
  }

  /** `re.sub('[^A-Za-z0-9.]+', ' ', s)`: every maximal run of other
      characters becomes one space. */
  function Collapse(s: string): (r: string)
    ensures |r| <= |s|
    ensures forall i :: 0 <= i < |r| ==> Kept(r[i]) || r[i] == ' '
    ensures forall i :: 0 <= i < |r| - 1 ==> !(r[i] == ' ' && r[i + 1] == ' ')
    ensures |r| > 0 && r[0] == ' ' <==> |s| > 0 && !Kept(s[0])
    decreases |s|
  {
    if s == [] then []
    else if Kept(s[0]) then [s[0]] + Collapse(s[1..])
    else [' '] + Collapse(SkipRun(s[1..]))
  }

  /** Reference reading of the substitution, first half: every character
      outside `[A-Za-z0-9.]` becomes a space. */
  function Blank(s: string): string
  {
    if s == [] then [] else [if Kept(s[0]) then s[0] else ' '] + Blank(s[1..])
  }

  /** Reference reading, second half: a space that follows a space is
      dropped, so each run of spaces shrinks to one. */
  function Squeeze(s: string): string
  {
    if |s| <= 1 then s
    else (if s[0] == ' ' && s[1] == ' ' then [] else [s[0]]) + Squeeze(s[1..])
  }

  /** A space in front of blanked text absorbs the blanked run that starts it. */
  lemma {:induction false} SqueezeLeadingSpace(t: string)
    ensures Squeeze([' '] + Blank(t)) == [' '] + Squeeze(Blank(SkipRun(t)))
    decreases |t|
  {
    var u := [' '] + Blank(t);
    if t == [] {
      assert u == [' '];
    } else if Kept(t[0]) {
      assert u[1] == t[0] && u[1..] == Blank(t);
    } else {
      assert u[1] == ' ' && u[1..] == [' '] + Blank(t[1..]);
      SqueezeLeadingSpace(t[1..]);
    }
  }

  /** The substitution is the reference reading: blank every removed
      character, then squeeze each run of spaces to a single space. So one
      space stands exactly where each maximal run of removed characters was. */
  lemma {:induction false} CollapseIsSqueeze(s: string)
    ensures Collapse(s) == Squeeze(Blank(s))
    decreases |s|
  {
    if s != [] {
      var u := Blank(s);
      if Kept(s[0]) {
        CollapseIsSqueeze(s[1..]);
        assert u == [s[0]] + Blank(s[1..]);
        if |s| > 1 {
          assert u[1..] == Blank(s[1..]);
        }
      } else {
        CollapseIsSqueeze(SkipRun(s[1..]));
        SqueezeLeadingSpace(s[1..]);
      }
    }
  }

  /** A kept character passes through the substitution unchanged. */
  lemma CollapseKeptHead(c: char, t: string)
    requires Kept(c)
    ensures Collapse([c] + t) == [c] + Collapse(t)
  {
    assert ([c] + t)[1..] == t;
  }

  /** The sample "tru!th": the `!` becomes a space, so "truth" does not occur. */
  lemma CollapseSplitsWord()
    ensures Collapse("tru!th") == "tru th"
  {
    var s := "!th";
    assert s[1..] == "th" && SkipRun(s[1..]) == s[1..];
    CollapseKeptHead('h', "");
    CollapseKeptHead('t', "h");
    assert Collapse(s) == " th";
    CollapseKeptHead('u', s);
    CollapseKeptHead('r', "u" + s);
    CollapseKeptHead('t', "ru" + s);
    assert "t" + ("r" + ("u" + " th")) == "tru th";
  }

  /** Dropping a run of removed characters does not change the kept ones. */
  lemma {:induction false} SkipRunKeepsKept(s: string)
    ensures KeptChars(SkipRun(s)) == KeptChars(s)
  {
    if s != [] && !Kept(s[0]) {
      SkipRunKeepsKept(s[1..]);
    }
  }

  /** The text's kept characters all survive collapsing, in their order, and
      nothing but spaces is added. */
  lemma {:induction false} CollapseKeepsText(s: string)
    ensures NonSpace(Collapse(s)) == KeptChars(s)
    decreases |s|
  {
    if s != [] {
      if Kept(s[0]) {
        CollapseKeepsText(s[1..]);
        assert Collapse(s)[1..] == Collapse(s[1..]);
      } else {
        CollapseKeepsText(SkipRun(s[1..]));
        SkipRunKeepsKept(s[1..]);
        assert Collapse(s)[1..] == Collapse(SkipRun(s[1..]));
      }
    }
  }

  /** ASCII lowercase of one character. */
  function LowerChar(c: char): (d: char)
  {
    if 'A' <= c <= 'Z' then (c as int + 32) as char else c
  }

  /** `.lower()` on text made only of ASCII letters, digits, periods and spaces. */
  function Lower(s: string): (r: string)
    ensures |r| == |s|
    ensures forall i :: 0 <= i < |s| ==> r[i] == LowerChar(s[i])
  {
    if s == [] then [] else [LowerChar(s[0])] + Lower(s[1..])
  }

  /** Lowercasing commutes with removing spaces. */
  lemma {:induction false} LowerNonSpace(s: string)
    ensures NonSpace(Lower(s)) == Lower(NonSpace(s))
  {
    if s != [] {
      LowerNonSpace(s[1..]);
      assert Lower(s)[1..] == Lower(s[1..]);
      assert Lower(s) == [LowerChar(s[0])] + Lower(s[1..]);
    }
  }

  /** A character normalised text may hold. */
  predicate NormalChar(c: char)
  {
    'a' <= c <= 'z' || '0' <= c <= '9' || c == '.' || c == ' '
  }

  /** The normalised text used for word search. */
  function Normalize(s: string): (r: string)
    ensures |r| <= |s|
    ensures forall i :: 0 <= i < |r| ==> NormalChar(r[i])
    ensures forall i :: 0 <= i < |r| - 1 ==> !(r[i] == ' ' && r[i + 1] == ' ')
  {
    Lower(Collapse(s))
  }

  /** The body's letters (lowercased), digits and periods survive
      normalisation in their original order. */
  lemma NormalizeKeepsText(s: string)
    ensures NonSpace(Normalize(s)) == Lower(KeptChars(s))
  {
    CollapseKeepsText(s);
    LowerNonSpace(Collapse(s));
  }

  /** Normalisation is the reference reading followed by lowercasing. */
  lemma NormalizeIsSqueeze(s: string)
    ensures Normalize(s) == Lower(Squeeze(Blank(s)))
  {
    CollapseIsSqueeze(s);
  }

  /** Number of non-overlapping occurrences of "truth" in the normalised body. */
  function TruthCount(body: string): (n: nat)
    ensures n * 5 <= |body|
  {
    CountMatches(Normalize(body), "truth")
  }

  /** "truth" cannot overlap itself. */
  lemma TruthSelfDisjoint()
    ensures SelfDisjoint("truth")
  {
    var t := "truth";
    forall k | 0 < k < |t| ensures !(t[k..] <= t) {
      if k == 3 { assert t[k..][1] != t[1]; } else { assert t[k..][0] != t[0]; }
    }
  }

  /** The non-overlapping count equals the number of places "truth" occurs. */
  lemma TruthCountIsOccurrences(body: string)
    ensures TruthCount(body) == Occurrences(Normalize(body), "truth")
  {
    TruthSelfDisjoint();
    CountMatchesIsOccurrences(Normalize(body), "truth");
  }

  /** The "Truth twice" entry: present and true when the count exceeds two,
      absent otherwise; it is never false. */
  function TruthTwice(body: string): (r: Option<bool>)
    ensures r != Some(false)
    ensures r.Some? <==> TruthCount(body) > 2
  {
    if TruthCount(body) > 2 then Some(true) else None
  }

  /** The right double quotation mark counted as dialogue. */
  const CloseQuote: char := '\U{201D}'

  /** The "Dialogue Instances" entry: the closing quotation marks of the raw body. */
  function DialogueInstances(body: string): (n: nat)
    ensures n == multiset(body)[CloseQuote]
    ensures n <= |body|
  {
    CountChar(body, CloseQuote)
  }
}
