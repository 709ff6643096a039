/**
 * The text step of the processing loop of main.py (lines 125-140): the engine's
 * text is trimmed, its first character upper-cased and a full stop added when it
 * lacks terminal punctuation; then, when the lower-cased text starts with the
 * last (at most 30) characters of the previous transcript entry, those characters
 * and the whitespace after them are cut off.
 */
module Stitcher {
  import opened PyStr

  /** The longest tail of the previous entry that is looked for at the head of the new text. */
  const ProbeCap: nat := 30

  function Min(a: nat, b: nat): nat { if a <= b then a else b }

  /** The marks `str.endswith(('.', '!', '?'))` accepts. */
  predicate IsTerminal(c: char)
  {
    c == '.' || c == '!' || c == '?'
  }

  /** `text[0].upper() + text[1:]`, applied only to non-empty text. */
  function Capitalize(t: string): string
  {
    if t == [] then [] else [ToUpper(t[0])] + t[1..]
  }

  /** Adds `.` to non-empty text that does not already end in `.`, `!` or `?`. */
  function Punctuate(t: string): string
  {
    if t != [] && !IsTerminal(t[|t| - 1]) then t + "." else t
  }

  /** The engine's text after trimming, capitalisation and terminal punctuation. */
  function Normalize(raw: string): string
  {
    Punctuate(Capitalize(Strip(raw)))
  }

  /**
   * The overlap probe: the last `min(30, len)` characters of the previous entry
   * after `strip().lower()`. The empty string stands for "no probe" (no previous
   * entry, or a blank one), which the source treats alike.
   */
  function Probe(transcript: seq<string>): string
  {
    if transcript == [] then ""
    else
      var last := Lower(Strip(transcript[|transcript| - 1]));
      last[|last| - Min(ProbeCap, |last|)..]
  }

  /** Whether the new (normalised) text is cut against the previous entry. */
  predicate Overlaps(transcript: seq<string>, t: string)
  {
    var p := Probe(transcript);
    p != [] && p <= Lower(t)
  }

  /** Cuts the probe `p` and the whitespace after it off `t` when `t.lower()` starts with a non-empty `p`. */
  function Cut(p: string, t: string): string
  {
    if p != [] && p <= Lower(t) then LStrip(t[|p|..]) else t
  }

  /** The entry appended to the transcript for the engine text `raw`. */
  function Stitch(transcript: seq<string>, raw: string): string
  {
    Cut(Probe(transcript), Normalize(raw))
  }

  // ---------------------------------------------------------------------------
  // Normalisation

  /** Non-blank text keeps its trimmed characters, with only the first one upper-cased. */
  lemma NormalizeCapitalizes(raw: string)
    requires Strip(raw) != []
    ensures var s, r := Strip(raw), Normalize(raw);
      |s| <= |r| && r[0] == ToUpper(s[0]) && r[1..|s|] == s[1..]
  {
  }

  /** Normalised text is empty exactly when the engine's text is blank (empty or whitespace only). */
  lemma NormalizeEmpty(raw: string)
    ensures Normalize(raw) == [] <==> forall i :: 0 <= i < |raw| ==> IsSpace(raw[i])
  {
  }

  /** Non-empty normalised text ends in `.`, `!` or `?`. */
  lemma NormalizeTerminal(raw: string)
    ensures var r := Normalize(raw); r != [] ==> IsTerminal(r[|r| - 1])
  {
  }

  /**
   * A single `.` is added exactly when the trimmed text does not already end in
   * `.`, `!` or `?`; otherwise the (capitalised) text is untouched.
   */
  lemma NormalizePunctuates(raw: string)
    requires Strip(raw) != []
    ensures var s := Strip(raw);
      Normalize(raw) == if IsTerminal(s[|s| - 1]) then Capitalize(s) else Capitalize(s) + "."
  {
    CapitalizeKeepsMarks(Strip(raw));
  }

  /** Capitalising keeps the length and never changes whether a character is a terminal mark. */
  lemma CapitalizeKeepsMarks(s: string)
    ensures |Capitalize(s)| == |s|
    ensures forall i :: 0 <= i < |s| ==> IsTerminal(Capitalize(s)[i]) == IsTerminal(s[i])
  {
  }

  /** Normalising normalised text changes nothing. */
  lemma NormalizeIdempotent(raw: string)
    ensures Normalize(Normalize(raw)) == Normalize(raw)
  {
    var n := Normalize(raw);
    var s := Strip(raw);
    if n != [] {
      ToUpperFacts(s[0]);
      assert n[0] == ToUpper(s[0]);
      assert !IsSpace(n[|n| - 1]);
    }
    StripUnchanged(n);
    if n != [] {
      ToUpperFacts(s[0]);
      assert Capitalize(n) == n;
    }
  }

  // ---------------------------------------------------------------------------
  // The overlap probe

  /**
   * The probe is the tail of the previous entry after `strip().lower()`, exactly
   * `min(30, len)` characters long, and it is empty only when there is no previous
   * entry or that entry is blank.
   */
  lemma ProbeShape(transcript: seq<string>)
    ensures transcript == [] ==> Probe(transcript) == []
    ensures transcript != [] ==>
      var last, p := Lower(Strip(transcript[|transcript| - 1])), Probe(transcript);
      && |p| == Min(ProbeCap, |last|)
      && |p| <= ProbeCap
      && p == last[|last| - |p|..]
      && (p == [] <==> Strip(transcript[|transcript| - 1]) == [])
  {
  }

  // ---------------------------------------------------------------------------
  // Stitching

  /** Cutting keeps a suffix of the text, no longer than the text. */
  lemma CutIsSuffix(p: string, t: string)
    ensures |Cut(p, t)| <= |t| && Cut(p, t) == t[|t| - |Cut(p, t)|..]
  {
    if p != [] && p <= Lower(t) {
      var rest := t[|p|..];
      var r := LStrip(rest);
      SuffixOfSuffix(t, |p|, r);
    }
  }

  /** A suffix of a suffix of `t` is a suffix of `t`. */
  lemma SuffixOfSuffix(t: string, j: nat, r: string)
    requires j <= |t| && |r| <= |t| - j && r == t[j..][|t| - j - |r|..]
    ensures r == t[|t| - |r|..]
  {
  }

  /**
   * When `t.lower()` starts with a non-empty probe, the cut head is, ignoring
   * case, exactly the probe followed only by whitespace, and the rest is kept as
   * it was (not re-capitalised).
   */
  lemma CutOverlap(p: string, t: string)
    requires p != [] && p <= Lower(t)
    ensures Cut(p, t) == LStrip(t[|p|..])
    ensures |p| <= |t| - |Cut(p, t)|
    ensures Lower(t[..|p|]) == p
    ensures forall i :: |p| <= i < |t| - |Cut(p, t)| ==> IsSpace(t[i])
  {
    var rest := t[|p|..];
    var r := LStrip(rest);
    forall i | |p| <= i < |t| - |r| ensures IsSpace(t[i]) {
      assert t[i] == rest[i - |p|];
    }
    assert Lower(t[..|p|]) == Lower(t)[..|p|];
  }

  /** The stitched entry is a suffix of the normalised text, never longer than it. */
  lemma StitchIsSuffix(transcript: seq<string>, raw: string)
    ensures |Stitch(transcript, raw)| <= |Normalize(raw)|
    ensures Stitch(transcript, raw) == Normalize(raw)[|Normalize(raw)| - |Stitch(transcript, raw)|..]
  {
    CutIsSuffix(Probe(transcript), Normalize(raw));
  }

  /**
   * The entry is cut only when there is a previous entry, that entry is not
   * blank after trimming, and the lower-cased normalised text starts with the probe.
   */
  lemma OverlapsIff(transcript: seq<string>, raw: string)
    ensures Overlaps(transcript, Normalize(raw)) <==>
      transcript != [] && Strip(transcript[|transcript| - 1]) != []
      && Probe(transcript) <= Lower(Normalize(raw))
  {
    ProbeShape(transcript);
  }

  /**
   * When the entry is cut, the cut head of the normalised text is, ignoring case,
   * the last `min(30, len)` characters of the previous entry (after trimming),
   * followed only by whitespace; the rest is `text[len(probe):].lstrip()`.
   */
  lemma StitchOverlap(transcript: seq<string>, raw: string)
    requires Overlaps(transcript, Normalize(raw))
    ensures var t, r, p := Normalize(raw), Stitch(transcript, raw), Probe(transcript);
      && r == LStrip(t[|p|..])
      && 0 < |p| <= ProbeCap && |p| <= |t| - |r|
      && Lower(t[..|p|]) == p
      && (forall i :: |p| <= i < |t| - |r| ==> IsSpace(t[i]))
  {
    ProbeShape(transcript);
    CutOverlap(Probe(transcript), Normalize(raw));
  }

  /** In every other case the entry is the normalised text itself. */
  lemma StitchNoOverlap(transcript: seq<string>, raw: string)
    requires !Overlaps(transcript, Normalize(raw))
    ensures Stitch(transcript, raw) == Normalize(raw)
  {
  }

  /** The first chunk of a session is only normalised. */
  lemma StitchFirstChunk(raw: string)
    ensures Stitch([], raw) == Normalize(raw)
  {
  }

  /** A blank engine text yields an empty entry, which the loop still appends. */
  lemma StitchBlank(transcript: seq<string>, raw: string)
    requires forall i :: 0 <= i < |raw| ==> IsSpace(raw[i])
    ensures Stitch(transcript, raw) == ""
  {
    NormalizeEmpty(raw);
  }

  // ---------------------------------------------------------------------------
  // Consequences for a running transcript

  /** Every non-empty entry the loop appends ends in `.`, `!` or `?`. */
  lemma StitchTerminal(transcript: seq<string>, raw: string)
    ensures var r := Stitch(transcript, raw); r != [] ==> IsTerminal(r[|r| - 1])
  {
    StitchIsSuffix(transcript, raw);
    NormalizeTerminal(raw);
  }

  /** The probe of an entry ending in a terminal mark ends in that mark too. */
  lemma ProbeEndsTerminal(transcript: seq<string>)
    requires transcript != []
    requires var e := transcript[|transcript| - 1]; e != [] && IsTerminal(e[|e| - 1])
    ensures var p := Probe(transcript); p != [] && IsTerminal(p[|p| - 1])
  {
    var e := transcript[|transcript| - 1];
    StripKeepsLast(e);
    ProbeShape(transcript);
    SuffixKeepsLast(Lower(Strip(e)), Probe(transcript));
  }

  /** A non-empty suffix ends in the same character as the whole. */
  lemma SuffixKeepsLast(s: string, t: string)
    requires t != [] && |t| <= |s| && t == s[|s| - |t|..]
    ensures t[|t| - 1] == s[|s| - 1]
  {
  }

  /** A probe ending in a terminal mark can only match text whose sole terminal mark is its last character as a whole. */
  lemma CutAtSoleMark(p: string, c: string)
    requires p != [] && IsTerminal(p[|p| - 1])
    requires forall i :: 0 <= i < |c| ==> !IsTerminal(c[i])
    ensures Cut(p, c + ".") == c + "." || Cut(p, c + ".") == ""
  {
    var t := c + ".";
    if p <= Lower(t) {
      var k := |p| - 1;
      assert Lower(t)[k] == p[k];
      assert t[|p|..] == [];
    }
  }

  /**
   * Because the probe of an appended entry ends in its terminal mark, engine text
   * without any `.`, `!` or `?` is never partly cut: it is kept whole, or it is
   * dropped entirely (when it repeats the probe exactly, ignoring case and the
   * added full stop).
   */
  lemma UnmarkedTextNotPartlyCut(transcript: seq<string>, raw: string)
    requires transcript != []
    requires var e := transcript[|transcript| - 1]; e != [] && IsTerminal(e[|e| - 1])
    requires forall i :: 0 <= i < |raw| ==> !IsTerminal(raw[i])
    ensures Stitch(transcript, raw) == Normalize(raw) || Stitch(transcript, raw) == ""
  {
    ProbeEndsTerminal(transcript);
    var c := Capitalize(Strip(raw));
    if c != [] {
      NoMarkAfterCapitalize(raw);
      assert !IsTerminal(c[|c| - 1]);
      assert Normalize(raw) == c + ".";
      CutAtSoleMark(Probe(transcript), c);
    }
  }

  /** Trimming and capitalising introduce no terminal mark. */
  lemma NoMarkAfterCapitalize(raw: string)
    requires forall i :: 0 <= i < |raw| ==> !IsTerminal(raw[i])
    ensures var c := Capitalize(Strip(raw)); forall i :: 0 <= i < |c| ==> !IsTerminal(c[i])
  {
    var s := Strip(raw);
    var start := StripIsSlice(raw);
    var c := Capitalize(s);
    forall i | 0 <= i < |c| ensures !IsTerminal(c[i]) {
      assert s[i] == raw[start + i];
    }
  }

  // ---------------------------------------------------------------------------
  // A whole session's transcript

  /**
   * The entries appended by a loop that, for each text in turn, appends `step`
   * applied to the entries so far and that text: one entry per text.
   */
  function Fold(step: (seq<string>, string) -> string, texts: seq<string>): (r: seq<string>)
    ensures |r| == |texts|
  {
    if texts == [] then []
    else
      var prior := Fold(step, texts[..|texts| - 1]);
      prior + [step(prior, texts[|texts| - 1])]
  }

  /** The transcript after the processed chunks' engine texts `texts`, stitched in order, each against its predecessors. */
  function StitchAll(texts: seq<string>): seq<string>
  {
    Fold(Stitch, texts)
  }

  /** One more text appends exactly one entry, computed from the entries so far. */
  lemma FoldSnoc(step: (seq<string>, string) -> string, texts: seq<string>, t: string)
    ensures Fold(step, texts + [t]) == Fold(step, texts) + [step(Fold(step, texts), t)]
  {
    assert (texts + [t])[..|texts|] == texts;
  }

  /** Entries are never revised: the entries after the first `k` texts are a prefix of the entries after all of them. */
  lemma {:induction false} FoldPrefix(step: (seq<string>, string) -> string, texts: seq<string>, k: nat)
    requires k <= |texts|
    ensures Fold(step, texts)[..k] == Fold(step, texts[..k])
    decreases |texts| - k
  {
    if k == |texts| {
      assert texts[..k] == texts;
    } else {
      var init := texts[..|texts| - 1];
      assert init[..k] == texts[..k];
      FoldPrefix(step, init, k);
    }
  }

  /** Every non-empty entry ends in `.`, `!` or `?`. */
  ghost predicate Punctuated(transcript: seq<string>)
  {
    forall k :: 0 <= k < |transcript| ==> transcript[k] == [] || IsTerminal(transcript[k][|transcript[k]| - 1])
  }

  /** The `k`-th entry is the `k`-th engine text stitched against the entries before it. */
  lemma StitchAllEntry(texts: seq<string>, k: nat)
    requires k < |texts|
    ensures |StitchAll(texts)| == |texts|
    ensures StitchAll(texts)[k] == Stitch(StitchAll(texts[..k]), texts[k])
  {
    FoldPrefix(Stitch, texts, k + 1);
    var pre := texts[..k + 1];
    assert pre[..k] == texts[..k];
    assert StitchAll(texts)[k] == StitchAll(texts)[..k + 1][k];
  }

  /** Every non-empty entry of a session's transcript ends in a terminal mark. */
  lemma {:induction false} StitchAllPunctuated(texts: seq<string>)
    ensures Punctuated(StitchAll(texts))
  {
    if texts != [] {
      var prior := StitchAll(texts[..|texts| - 1]);
      StitchAllPunctuated(texts[..|texts| - 1]);
      StitchTerminal(prior, texts[|texts| - 1]);
    }
  }

  // ---------------------------------------------------------------------------
  // Worked examples

  /** Already trimmed text without a terminal mark gets its first letter upper-cased and a full stop. */
  lemma NormalizeTrimmed(s: string)
    requires s != [] && !IsSpace(s[0]) && !IsSpace(s[|s| - 1]) && !IsTerminal(s[|s| - 1])
    ensures Normalize(s) == [ToUpper(s[0])] + s[1..] + "."
  {
    StripUnchanged(s);
  }

  /** "hi there" normalised. */
  lemma NormalizedHiThere()
    ensures Normalize("hi there") == "Hi there."
  {
    NormalizeTrimmed("hi there");
    assert "hi there"[1..] == "i there";
  }

  /** "hi. yo" normalised. */
  lemma NormalizedHiYo()
    ensures Normalize("hi. yo") == "Hi. yo."
  {
    NormalizeTrimmed("hi. yo");
    assert "hi. yo"[1..] == "i. yo";
  }

  /** "hi yo" normalised. */
  lemma NormalizedHiYoUnstopped()
    ensures Normalize("hi yo") == "Hi yo."
  {
    NormalizeTrimmed("hi yo");
    assert "hi yo"[1..] == "i yo";
  }

  /** The probe after the entry "Hi." is that whole entry, lower-cased, full stop included. */
  lemma ProbeOfHi()
    ensures Probe(["Hi."]) == "hi."
  {
    StripUnchanged("Hi.");
    assert Lower("Hi.") == "hi.";
  }

  /** The first chunk is trimmed, capitalised and given a full stop. */
  lemma ExampleFirstChunk()
    ensures Stitch([], "hi there") == "Hi there."
  {
    NormalizedHiThere();
    StitchFirstChunk("hi there");
  }

  /** "Hi. yo." lower-cased starts with the probe "hi.". */
  lemma HiYoStartsWithProbe()
    ensures "hi." <= Lower("Hi. yo.")
  {
    assert Lower("Hi. yo.")[..3] == "hi.";
  }

  /** Cutting the probe "hi." off "Hi. yo." leaves "yo.". */
  lemma CutHiYo()
    ensures Cut("hi.", "Hi. yo.") == "yo."
  {
    HiYoStartsWithProbe();
    HiYoRest();
  }

  /** What follows the probe in "Hi. yo.", left-stripped. */
  lemma HiYoRest()
    ensures LStrip("Hi. yo."[3..]) == "yo."
  {
    assert "Hi. yo."[3..] == " yo.";
    assert " yo."[1..] == "yo.";
  }

  /** A repeated head is cut, and the rest keeps its lower-case first letter. */
  lemma ExampleOverlapCut()
    ensures Stitch(["Hi."], "hi. yo") == "yo."
  {
    ProbeOfHi();
    NormalizedHiYo();
    CutHiYo();
  }

  /** The probe ends in the full stop the previous entry was given, so a repeat without it is not cut. */
  lemma ExampleOverlapMissed()
    ensures Stitch(["Hi."], "hi yo") == "Hi yo."
  {
    ProbeOfHi();
    NormalizedHiYoUnstopped();
    HiYoMissesProbe();
  }

  /** "Hi yo." lower-cased does not start with the probe "hi.". */
  lemma HiYoMissesProbe()
    ensures !("hi." <= Lower("Hi yo."))
  {
    assert Lower("Hi yo.")[2] == ' ';
  }
}
