/**
 * Text framing in the dialogue generator: the brace-depth scanner that cuts
 * complete JSON objects out of streamed model output, the first-object
 * extractor used on single-shot replies, NDJSON line framing of the HTTP
 * download stream, and the small validators and lookups around them.
 *
 * `JSON.parse` is not modelled: the scanner and extractor only delimit text.
 */
module DialogueText {
  import opened Wrappers
  import opened JsText

  // ---------------------------------------------------------------------------
  // Balanced-object scanner (extractBalancedJsonObjects)
  // ---------------------------------------------------------------------------

  /** The scan loop's variables: brace depth, string/escape state, start of the open object (-1 if none). */
  datatype Scanner = Scanner(depth: nat, inString: bool, escaping: bool, currentStart: int)

  const Initial: Scanner := Scanner(0, false, false, -1)

  /** One loop iteration: the next scanner, and whether a top-level object closed at this character. */
  datatype Scanned = Scanned(next: Scanner, closed: bool)

  /** A completed object occupies `buffer[start..end]`. */
  datatype Span = Span(start: nat, end: nat)

  /** What holds of the loop variables before position `i` is read. */
  predicate Consistent(s: Scanner, i: nat) {
    && (s.depth == 0 <==> s.currentStart < 0)
    && s.currentStart < i
    && (s.escaping ==> s.inString)
  }

  /** The scanner's reaction to character `c` at position `i`. */
  function Step(s: Scanner, c: char, i: nat): (r: Scanned)
    // an object closes only on a '}' that brings an open object back to depth zero
    ensures r.closed ==> c == '}' && s.currentStart >= 0 && r.next.depth == 0 && r.next.currentStart < 0
    ensures Consistent(s, i) && !s.inString && c == '}' && s.depth == 1 ==> r.closed
    // a new object opens only on a '{' at depth zero
    ensures r.next.currentStart >= 0 ==> r.next.currentStart == s.currentStart || (r.next.currentStart == i && c == '{')
    ensures Consistent(s, i) ==> Consistent(r.next, i + 1)
  {
    if s.escaping then Scanned(s.(escaping := false), false)
    else if s.inString then
      if c == '\\' then Scanned(s.(escaping := true), false)
      else if c == '"' then Scanned(s.(inString := false), false)
      else Scanned(s, false)
    else if c == '"' then Scanned(s.(inString := true), false)
    else if c == '{' then
      Scanned(s.(depth := s.depth + 1, currentStart := if s.depth == 0 then i else s.currentStart), false)
    else if c == '}' then
      var d := if s.depth > 0 then s.depth - 1 else 0;
      if d == 0 && s.currentStart >= 0 then Scanned(s.(depth := 0, currentStart := -1), true)
      else Scanned(s.(depth := d), false)
    else Scanned(s, false)
  }

  /** Inside a string literal the scanner only tracks escapes and the closing quote. */
  lemma StepInsideString(s: Scanner, c: char, i: nat)
    requires s.inString
    ensures s.escaping ==> Step(s, c, i) == Scanned(s.(escaping := false), false)
    ensures Step(s, c, i).next.depth == s.depth && Step(s, c, i).next.currentStart == s.currentStart
    ensures !Step(s, c, i).closed
    ensures !s.escaping && c == '\\' ==> Step(s, c, i).next.escaping && Step(s, c, i).next.inString
    ensures !s.escaping && c == '"' ==> !Step(s, c, i).next.inString
    ensures !s.escaping && c != '"' ==> Step(s, c, i).next.inString
  {
  }

  /** Outside strings only braces move the depth, by exactly one; a '}' with no open object is ignored. */
  lemma StepOutsideString(s: Scanner, c: char, i: nat)
    requires Consistent(s, i) && !s.inString
    ensures c != '{' && c != '}' ==> Step(s, c, i).next.depth == s.depth && !Step(s, c, i).closed
    ensures c == '"' ==> Step(s, c, i).next.inString
    ensures c == '{' ==> Step(s, c, i).next.depth == s.depth + 1 && !Step(s, c, i).closed
    ensures c == '}' && s.depth > 0 ==> Step(s, c, i).next.depth == s.depth - 1
    ensures c == '}' && s.depth == 0 ==> Step(s, c, i) == Scanned(s, false)
    ensures c == '}' && s.depth == 1 ==> Step(s, c, i).closed
  {
  }

  /** Where the unconsumed text begins: after the last completed object, or at 0. */
  function LastEnd(spans: seq<Span>): nat {
    if |spans| == 0 then 0 else spans[|spans| - 1].end
  }

  /** `objects` are the slices of `buffer` at `spans`: brace-framed, in order, not overlapping, ending by `upto`. */
  predicate Placed(buffer: string, objects: seq<string>, spans: seq<Span>, upto: nat) {
    && upto <= |buffer|
    && |spans| == |objects|
    && (forall k :: 0 <= k < |spans| ==>
          && spans[k].start < spans[k].end <= upto
          && objects[k] == buffer[spans[k].start..spans[k].end]
          && buffer[spans[k].start] == '{' && buffer[spans[k].end - 1] == '}')
    && (forall k :: 0 < k < |spans| ==> spans[k - 1].end <= spans[k].start)
  }

  lemma PlacedExtend(buffer: string, objects: seq<string>, spans: seq<Span>, upto: nat, s: nat, e: nat)
    requires Placed(buffer, objects, spans, upto)
    requires LastEnd(spans) <= s < e <= |buffer| && buffer[s] == '{' && buffer[e - 1] == '}'
    ensures Placed(buffer, objects + [buffer[s..e]], spans + [Span(s, e)], e)
    ensures LastEnd(spans + [Span(s, e)]) == e
  {
    var objects', spans' := objects + [buffer[s..e]], spans + [Span(s, e)];
    forall k | 0 <= k < |spans| ensures spans[k].end <= s {
      LastEndBounds(spans, k);
    }
    assert forall k :: 0 <= k < |spans| ==> spans'[k] == spans[k] && objects'[k] == objects[k];
    assert spans'[|spans|] == Span(s, e) && objects'[|spans|] == buffer[s..e];
  }

  lemma {:induction false} LastEndBounds(spans: seq<Span>, k: nat)
    requires k < |spans|
    requires forall j :: 0 < j < |spans| ==> spans[j - 1].end <= spans[j].start
    requires forall j :: 0 <= j < |spans| ==> spans[j].start < spans[j].end
    ensures spans[k].end <= LastEnd(spans)
    decreases |spans| - k
  {
    if k < |spans| - 1 {
      LastEndBounds(spans, k + 1);
    }
  }

  /** The scan loop's invariant after reading `buffer[..i]`. */
  predicate ScanInvariant(buffer: string, objects: seq<string>, spans: seq<Span>, st: Scanner, i: nat, remainingStart: nat) {
    && i <= |buffer|
    && Consistent(st, i)
    && Placed(buffer, objects, spans, i)
    && remainingStart == LastEnd(spans) <= i
    && (st.currentStart >= 0 ==> remainingStart <= st.currentStart && buffer[st.currentStart] == '{')
  }

  /** The loop variables after reading a prefix: scanner state, objects so far, start of the unconsumed text. */
  datatype ScanState = ScanState(st: Scanner, objects: seq<string>, rest: nat)

  /** Reference definition: `Step` folded over `buffer[..n]` from the initial state, keeping every object that closes. */
  function ScanPrefix(buffer: string, n: nat): (r: ScanState)
    requires n <= |buffer|
    ensures Consistent(r.st, n) && r.rest <= n
    ensures r.st.currentStart >= 0 ==> r.rest <= r.st.currentStart
  {
    if n == 0 then ScanState(Initial, [], 0)
    else
      var p := ScanPrefix(buffer, n - 1);
      var s := Step(p.st, buffer[n - 1], n - 1);
      if s.closed then ScanState(s.next, p.objects + [buffer[p.st.currentStart..n]], n)
      else ScanState(s.next, p.objects, p.rest)
  }

  /** One iteration of the scan loop at position `i`: a closing brace emits the object it ends. */
  method ScanOne(buffer: string, objects: seq<string>, ghost spans: seq<Span>, st: Scanner, i: nat, remainingStart: nat)
    returns (objects': seq<string>, ghost spans': seq<Span>, st': Scanner, remainingStart': nat)
    requires i < |buffer| && ScanInvariant(buffer, objects, spans, st, i, remainingStart)
    ensures ScanInvariant(buffer, objects', spans', st', i + 1, remainingStart')
    ensures st' == Step(st, buffer[i], i).next
    ensures Step(st, buffer[i], i).closed ==>
              objects' == objects + [buffer[st.currentStart..i + 1]] && remainingStart' == i + 1
    ensures !Step(st, buffer[i], i).closed ==> objects' == objects && remainingStart' == remainingStart
    ensures ScanPrefix(buffer, i) == ScanState(st, objects, remainingStart) ==>
              ScanPrefix(buffer, i + 1) == ScanState(st', objects', remainingStart')
  {
    var r := Step(st, buffer[i], i);
    if r.closed {
      PlacedExtend(buffer, objects, spans, i, st.currentStart, i + 1);
      objects' := objects + [buffer[st.currentStart..i + 1]];
      spans' := spans + [Span(st.currentStart, i + 1)];
      remainingStart' := i + 1;
    } else {
      objects', spans', remainingStart' := objects, spans, remainingStart;
    }
    st' := r.next;
  }

  /**
   * `extractBalancedJsonObjects`: every top-level `{...}` that closes within
   * `buffer`, in order, and the text after the last one. `spans` records
   * where each object sits in `buffer`.
   */
  method ExtractBalancedJsonObjects(buffer: string) returns (objects: seq<string>, remaining: string, ghost spans: seq<Span>)
    // exactly what the character-by-character scanner collects
    ensures objects == ScanPrefix(buffer, |buffer|).objects
    ensures remaining == buffer[ScanPrefix(buffer, |buffer|).rest..]
    ensures Placed(buffer, objects, spans, |buffer|)
    ensures forall k :: 0 <= k < |objects| ==>
      |objects[k]| >= 2 && objects[k][0] == '{' && objects[k][|objects[k]| - 1] == '}'
    ensures LastEnd(spans) <= |buffer| && remaining == buffer[LastEnd(spans)..]
    ensures |objects| == 0 ==> remaining == buffer
  {
    objects, spans := [], [];
    var remainingStart: nat := 0;
    var st := Initial;
    var i := 0;
    while i < |buffer|
      invariant ScanInvariant(buffer, objects, spans, st, i, remainingStart)
      invariant ScanPrefix(buffer, i) == ScanState(st, objects, remainingStart)
    {
      objects, spans, st, remainingStart := ScanOne(buffer, objects, spans, st, i, remainingStart);
      i := i + 1;
    }
    remaining := buffer[remainingStart..];
    PlacedFramed(buffer, objects, spans, i);
  }

  /** Placed objects are brace-framed texts of at least two characters. */
  lemma PlacedFramed(buffer: string, objects: seq<string>, spans: seq<Span>, upto: nat)
    requires Placed(buffer, objects, spans, upto)
    ensures forall k :: 0 <= k < |objects| ==>
      |objects[k]| >= 2 && objects[k][0] == '{' && objects[k][|objects[k]| - 1] == '}'
  {
    forall k | 0 <= k < |objects|
      ensures |objects[k]| >= 2 && objects[k][0] == '{' && objects[k][|objects[k]| - 1] == '}'
    {
      var sp := spans[k];
      assert objects[k] == buffer[sp.start..sp.end];
    }
  }

  /** How one character outside strings moves the brace depth. */
  function Delta(c: char): int {
    if c == '{' then 1 else if c == '}' then -1 else 0
  }

  /** Brace depth of a quote-free text read from depth zero: opening minus closing braces. */
  function Net(t: string): int {
    if |t| == 0 then 0 else Net(t[..|t| - 1]) + Delta(t[|t| - 1])
  }

  lemma NetSnoc(t: string, m: nat)
    requires 0 < m <= |t|
    ensures Net(t[..m]) == Net(t[..m - 1]) + Delta(t[m - 1])
  {
    assert t[..m][..m - 1] == t[..m - 1];
  }

  /** A JSON-like object without string literals: '{' first, braces balanced, and open until its last character. */
  predicate PlainObject(t: string) {
    && |t| >= 2 && t[0] == '{'
    && '"' !in t
    && Net(t) == 0
    && forall k :: 1 <= k < |t| ==> Net(t[..k]) > 0
  }

  /** Inside an open object and outside strings, a non-quote character moves the depth by its `Delta`, closing at zero. */
  lemma StepInObject(s: Scanner, c: char, i: nat)
    requires s.depth > 0 && !s.inString && !s.escaping && s.currentStart >= 0 && c != '"'
    ensures s.depth + Delta(c) > 0 ==> Step(s, c, i) == Scanned(s.(depth := s.depth + Delta(c)), false)
    ensures s.depth + Delta(c) == 0 ==> Step(s, c, i) == Scanned(Scanner(0, false, false, -1), true)
  {
  }

  /** One character of an open object read by the fold: the depth moves by `Delta`, or the object closes at zero. */
  lemma ScanInObject(buffer: string, k: nat, d: nat, start: nat, objects: seq<string>, rest: nat)
    requires 0 < k <= |buffer| && d > 0 && buffer[k - 1] != '"'
    requires ScanPrefix(buffer, k - 1) == ScanState(Scanner(d, false, false, start), objects, rest)
    ensures d + Delta(buffer[k - 1]) > 0 ==>
              ScanPrefix(buffer, k) == ScanState(Scanner(d + Delta(buffer[k - 1]), false, false, start), objects, rest)
    ensures d + Delta(buffer[k - 1]) == 0 ==>
              ScanPrefix(buffer, k) == ScanState(Scanner(0, false, false, -1), objects + [buffer[start..k]], k)
  {
    StepInObject(Scanner(d, false, false, start), buffer[k - 1], k - 1);
  }

  /** A '{' read at top level opens an object there at depth one. */
  lemma ScanOpens(buffer: string, i: nat)
    requires i < |buffer| && buffer[i] == '{'
    requires ScanPrefix(buffer, i).st.depth == 0 && !ScanPrefix(buffer, i).st.inString
    ensures var p := ScanPrefix(buffer, i);
            ScanPrefix(buffer, i + 1) == ScanState(Scanner(1, false, false, i), p.objects, p.rest)
  {
  }

  /** The facts about a proper prefix of a plain object that the scan needs. */
  lemma PlainPrefix(t: string, m: nat)
    requires PlainObject(t) && 1 <= m < |t|
    ensures Net(t[..m]) > 0 && t[m - 1] != '"'
    ensures m >= 2 ==> Net(t[..m]) == Net(t[..m - 1]) + Delta(t[m - 1])
    ensures m == 1 ==> Net(t[..m]) == 1
  {
    NetSnoc(t, m);
    if m == 1 {
      assert t[..0] == [];
    }
  }

  /** Reading one more character of a plain object keeps the object open at its running depth. */
  lemma InsideStep(buffer: string, i: nat, j: nat, k: nat, objects: seq<string>, rest: nat)
    requires i + 1 < k < j <= |buffer| && PlainObject(buffer[i..j])
    requires Net(buffer[i..k - 1]) > 0
    requires ScanPrefix(buffer, k - 1) == ScanState(Scanner(Net(buffer[i..k - 1]), false, false, i), objects, rest)
    ensures Net(buffer[i..k]) > 0
    ensures ScanPrefix(buffer, k) == ScanState(Scanner(Net(buffer[i..k]), false, false, i), objects, rest)
  {
    var t := buffer[i..j];
    assert buffer[i..k] == t[..k - i];
    assert buffer[i..k - 1] == t[..k - 1 - i];
    assert buffer[k - 1] == t[k - 1 - i];
    PlainPrefix(t, k - i);
    ScanInObject(buffer, k, Net(buffer[i..k - 1]), i, objects, rest);
  }

  /** Inside a plain object that starts at `i`, the scanner is at the object's depth with the object open. */
  lemma {:induction false} InsidePlainObject(buffer: string, i: nat, j: nat, k: nat)
    requires i < k < j <= |buffer| && PlainObject(buffer[i..j])
    requires ScanPrefix(buffer, i).st.depth == 0 && !ScanPrefix(buffer, i).st.inString
    ensures var p := ScanPrefix(buffer, i);
            && Net(buffer[i..k]) > 0
            && ScanPrefix(buffer, k) == ScanState(Scanner(Net(buffer[i..k]), false, false, i), p.objects, p.rest)
    decreases k
  {
    var p := ScanPrefix(buffer, i);
    if k == i + 1 {
      var t := buffer[i..j];
      assert buffer[i..k] == t[..1];
      PlainPrefix(t, 1);
      ScanOpens(buffer, i);
    } else {
      InsidePlainObject(buffer, i, j, k - 1);
      InsideStep(buffer, i, j, k, p.objects, p.rest);
    }
  }

  /** A plain object that starts where the scanner is at top level is emitted whole when its last brace is read. */
  lemma PlainObjectEmitted(buffer: string, i: nat, j: nat)
    requires i < j <= |buffer| && PlainObject(buffer[i..j])
    requires ScanPrefix(buffer, i).st.depth == 0 && !ScanPrefix(buffer, i).st.inString
    ensures var p := ScanPrefix(buffer, i);
            ScanPrefix(buffer, j) == ScanState(Scanner(0, false, false, -1), p.objects + [buffer[i..j]], j)
  {
    var t := buffer[i..j];
    var p := ScanPrefix(buffer, i);
    InsidePlainObject(buffer, i, j, j - 1);
    assert buffer[i..j - 1] == t[..|t| - 1];
    assert t[..|t|] == t;
    NetSnoc(t, |t|);
    assert buffer[j - 1] == t[|t| - 1] != '"';
    ScanInObject(buffer, j, Net(buffer[i..j - 1]), i, p.objects, p.rest);
  }

  /** Text without an opening brace yields no object and leaves everything unconsumed. */
  lemma {:induction false} NoOpenBraceNoObject(buffer: string, n: nat)
    requires n <= |buffer| && '{' !in buffer[..n]
    ensures ScanPrefix(buffer, n).objects == [] && ScanPrefix(buffer, n).rest == 0
    ensures ScanPrefix(buffer, n).st.depth == 0
  {
    if n > 0 {
      assert buffer[..n - 1] == buffer[..n][..n - 1];
      NoOpenBraceNoObject(buffer, n - 1);
      assert buffer[n - 1] == buffer[..n][n - 1];
    }
  }

  /** The smallest object, `{}`, is found. */
  lemma EmptyObjectFound()
    ensures ScanPrefix("{}", 2).objects == ["{}"] && ScanPrefix("{}", 2).rest == 2
  {
    assert "{}"[..1] == "{";
    assert "{}"[..1][..0] == "" && "{}"[..2] == "{}" && "{}"[..2][..1] == "{";
    SinglePlainObject("{}");
  }

  /** A reply that is a single plain object is returned as exactly that object, with nothing left over. */
  lemma SinglePlainObject(buffer: string)
    requires PlainObject(buffer)
    ensures ScanPrefix(buffer, |buffer|) == ScanState(Scanner(0, false, false, -1), [buffer], |buffer|)
  {
    assert buffer[0..|buffer|] == buffer;
    PlainObjectEmitted(buffer, 0, |buffer|);
  }

  /** A closing brace inside a string literal does not end the object. */
  lemma BraceInStringIgnored()
    ensures ScanPrefix("{\"a\":\"}\"}", 9).objects == ["{\"a\":\"}\"}"]
  {
    var b := "{\"a\":\"}\"}";
    assert ScanPrefix(b, 8).objects == [] && ScanPrefix(b, 8).st.depth == 1 && !ScanPrefix(b, 8).st.inString
           && ScanPrefix(b, 8).st.currentStart == 0 by {
      assert ScanPrefix(b, 5).st == Scanner(1, false, false, 0);
      assert ScanPrefix(b, 7).st == Scanner(1, true, false, 0);
    }
    assert b[0..9] == b;
  }

  // ---------------------------------------------------------------------------
  // First-object extraction (extractFirstJsonObjectFromText)
  // ---------------------------------------------------------------------------

  /** `pat` occurs at the front of `s`, letters compared ASCII-case-insensitively when `ci`. */
  predicate MatchesAtFront(s: string, pat: string, ci: bool) {
    && |pat| <= |s|
    && forall j :: 0 <= j < |pat| ==> (if ci then Lower(s[j]) == Lower(pat[j]) else s[j] == pat[j])
  }

  /** A global regex replace of the literal `pat` by '': leftmost matches, scanning left to right. */
  function RemoveAll(s: string, pat: string, ci: bool): (r: string)
    requires |pat| > 0
    ensures |r| <= |s|
    decreases |s|
  {
    if |s| == 0 then ""
    else if MatchesAtFront(s, pat, ci) then RemoveAll(s[|pat|..], pat, ci)
    else [s[0]] + RemoveAll(s[1..], pat, ci)
  }

  /** Only characters of `s` remain after the replace, in their order. */
  lemma {:induction false} RemoveAllKeepsOrder(s: string, pat: string, ci: bool)
    requires |pat| > 0
    ensures IsSubsequence(RemoveAll(s, pat, ci), s)
    decreases |s|
  {
    if |s| > 0 {
      if MatchesAtFront(s, pat, ci) {
        RemoveAllKeepsOrder(s[|pat|..], pat, ci);
        SubsequenceDrop(RemoveAll(s[|pat|..], pat, ci), s, |pat|);
      } else {
        RemoveAllKeepsOrder(s[1..], pat, ci);
        assert s == [s[0]] + s[1..];
      }
    }
  }

  /** Text with no occurrence is returned unchanged; any occurrence removes at least one whole copy of the pattern. */
  lemma {:induction false} RemoveAllOccurrences(s: string, pat: string, ci: bool)
    requires |pat| > 0
    ensures (forall j :: 0 <= j <= |s| ==> !MatchesAtFront(s[j..], pat, ci)) ==> RemoveAll(s, pat, ci) == s
    ensures (exists j :: 0 <= j <= |s| && MatchesAtFront(s[j..], pat, ci)) ==> |RemoveAll(s, pat, ci)| <= |s| - |pat|
    decreases |s|
  {
    if |s| > 0 {
      assert s[0..] == s;
      if !MatchesAtFront(s, pat, ci) {
        RemoveAllOccurrences(s[1..], pat, ci);
        assert forall j :: 1 <= j <= |s| ==> s[j..] == s[1..][j - 1..];
        assert s == [s[0]] + s[1..];
      }
    }
  }

  /** `r` is `s` with some characters deleted: the characters of `r` occur in `s` in the same order. */
  predicate IsSubsequence(r: string, s: string)
    decreases |s|
  {
    if |r| == 0 then true
    else if |s| == 0 then false
    else if r[0] == s[0] then IsSubsequence(r[1..], s[1..])
    else IsSubsequence(r, s[1..])
  }

  /** A subsequence of a suffix of `s` is a subsequence of `s`. */
  lemma {:induction false} SubsequenceDrop(r: string, s: string, n: nat)
    requires n <= |s| && IsSubsequence(r, s[n..])
    ensures IsSubsequence(r, s)
    decreases n
  {
    if n > 0 {
      assert s[1..][n - 1..] == s[n..];
      SubsequenceDrop(r, s[1..], n - 1);
      SubsequenceCons(r, s);
    }
  }

  /** A subsequence of the tail of `s` is a subsequence of `s`. */
  lemma {:induction false} SubsequenceCons(r: string, s: string)
    requires |s| > 0 && IsSubsequence(r, s[1..])
    ensures IsSubsequence(r, s)
    decreases |s|, 0
  {
    if |r| > 0 && r[0] == s[0] {
      SubsequenceTail(r, s[1..]);
    }
  }

  /** Dropping the first character keeps a subsequence a subsequence. */
  lemma {:induction false} SubsequenceTail(r: string, s: string)
    requires |r| > 0 && IsSubsequence(r, s)
    ensures IsSubsequence(r[1..], s)
    decreases |s|, 1
  {
    if r[0] == s[0] {
      SubsequenceCons(r[1..], s);
    } else {
      SubsequenceTail(r, s[1..]);
      SubsequenceCons(r[1..], s);
    }
  }

  /** The reply text with Markdown code fences removed and surrounding whitespace trimmed. */
  function Sanitize(text: string): string {
    Trim(RemoveAll(RemoveAll(text, "```json", true), "```", false))
  }

  /** The fence patterns both start with a backtick, so text without one is only trimmed. */
  lemma SanitizeWithoutFences(text: string)
    requires '`' !in text
    ensures Sanitize(text) == Trim(text)
  {
    NoBacktickNoMatch(text, "```json", true);
    RemoveAllOccurrences(text, "```json", true);
    NoBacktickNoMatch(text, "```", false);
    RemoveAllOccurrences(text, "```", false);
  }

  /** A pattern starting with a backtick occurs nowhere in text without one, whatever the case mode. */
  lemma NoBacktickNoMatch(s: string, pat: string, ci: bool)
    requires |pat| > 0 && pat[0] == '`' && '`' !in s
    ensures forall j :: 0 <= j <= |s| ==> !MatchesAtFront(s[j..], pat, ci)
  {
    forall j | 0 <= j <= |s| && j < |s| ensures !MatchesAtFront(s[j..], pat, ci) {
      assert s[j..][0] == s[j] != '`';
    }
  }

  /** JavaScript `slice(a, b)` for 0 <= a and b <= |s|: empty when b <= a. */
  function Slice(s: string, a: nat, b: nat): (r: string)
    requires a <= |s| && b <= |s|
    ensures b <= a ==> r == ""
    ensures a < b ==> r == s[a..b]
  {
    if b <= a then "" else s[a..b]
  }

  /**
   * The extraction step on already sanitised text `t`: from the first '{' to
   * the last '}', or '' when there is no such non-empty span. The source trims
   * the slice once more; a brace-framed span is left alone by that.
   */
  function FirstObjectIn(t: string): (r: string)
    ensures r == "" || (|r| >= 2 && r[0] == '{' && r[|r| - 1] == '}')
    ensures r != "" <==> '{' in t && '}' in t && IndexOf(t, '{') < LastIndexOf(t, '}')
  {
    var startIndex := IndexOf(t, '{');
    var endIndex := LastIndexOf(t, '}');
    if startIndex == -1 || endIndex == -1 then ""
    else Slice(t, startIndex, endIndex + 1)
  }

  /** A non-empty extraction starts at the first '{' of `t` and runs to its last '}'. */
  lemma FirstObjectPlacement(t: string)
    ensures var r := FirstObjectIn(t);
            r != "" ==>
              var a := IndexOf(t, '{');
              0 <= a && OccursAt(t, r, a) && '{' !in t[..a] && '}' !in t[a + |r|..]
  {
    var r := FirstObjectIn(t);
    if r != "" {
      var a, e := IndexOf(t, '{'), LastIndexOf(t, '}');
      assert 0 <= a < e && r == t[a..e + 1];
      assert a + |r| == e + 1;
    }
  }

  /** The source's closing `trim()` on the extracted span changes nothing. */
  lemma FirstObjectTrimmed(t: string)
    ensures Trim(FirstObjectIn(t)) == FirstObjectIn(t)
  {
    BracesTrimmed(FirstObjectIn(t));
  }

  /** A brace-framed span, or the empty string, is its own trim. */
  lemma BracesTrimmed(r: string)
    requires r == "" || (|r| >= 2 && r[0] == '{' && r[|r| - 1] == '}')
    ensures Trim(r) == r
  {
    if r != "" {
      TrimFramed(r);
    }
  }

  /** `extractFirstJsonObjectFromText`: fences stripped, trimmed, then the outermost brace span. */
  function ExtractFirstJsonObject(text: string): (r: string)
    ensures |r| == 0 || (|r| >= 2 && r[0] == '{' && r[|r| - 1] == '}')
  {
    var t := Sanitize(text);
    FirstObjectIn(t)
  }

  // ---------------------------------------------------------------------------
  // NDJSON framing of the download stream (generateDialogueStream)
  // ---------------------------------------------------------------------------

  /** Complete lines ready for parsing, and the unterminated tail carried to the next event. */
  datatype Framed = Framed(lines: seq<string>, carry: string)

  /** `joined = carry + segment; lines = joined.split('\n'); carry = lines.pop() ?? ''`. */
  function FrameSegment(carry: string, segment: string): (r: Framed)
    ensures '\n' !in r.carry
    ensures forall k :: 0 <= k < |r.lines| ==> '\n' !in r.lines[k]
    ensures Join(r.lines + [r.carry], '\n') == carry + segment
  {
    var parts := Split(carry + segment, '\n');
    SplitLastApart(carry + segment, '\n');
    Framed(parts[..|parts| - 1], parts[|parts| - 1])
  }

  /** Stream bookkeeping: characters of `partialText` consumed, the carried tail, and every line handed on so far. */
  datatype StreamState = StreamState(processed: nat, carry: string, lines: seq<string>)

  const StreamStart: StreamState := StreamState(0, "", [])

  /** Everything consumed so far is exactly the handed-on lines and the carry, rejoined. */
  predicate Accounted(st: StreamState, text: string) {
    st.processed <= |text| && Join(st.lines + [st.carry], '\n') == text[..st.processed]
  }

  /** `isNonEmptyString`: a string value whose trimmed form is non-empty (`None` is a non-string). */
  function IsNonEmptyString(v: Option<string>): (b: bool)
    ensures b <==> v.Some? && exists k :: 0 <= k < |v.value| && !IsWhitespace(v.value[k])
  {
    v.Some? && HasNonWhitespace(v.value)
  }

  /** The predicate agrees with the source's `value.trim().length > 0` test. */
  lemma IsNonEmptyStringTrims(v: Option<string>)
    ensures IsNonEmptyString(v) <==> v.Some? && |Trim(v.value)| > 0
  {
    if v.Some? {
      TrimNonEmptyIff(v.value);
    }
  }

  /** JavaScript `text.slice(n)` for n >= 0. */
  function SliceFrom(text: string, n: nat): (r: string)
    ensures n <= |text| ==> r == text[n..]
    ensures n > |text| ==> r == ""
  {
    if n <= |text| then text[n..] else ""
  }

  /**
   * The `DownloadProgress` handler as written: a segment that is only
   * whitespace is skipped after `processedLength` has already moved past it.
   */
  function OnDownloadProgress(st: StreamState, partialText: Option<string>): (r: StreamState)
    ensures !IsNonEmptyString(partialText) ==> r == st
    // any text event moves `processedLength` to the full text, framed or not
    ensures IsNonEmptyString(partialText) ==> r.processed == |partialText.value|
    // a blank new segment is consumed without touching the carry or the lines
    ensures IsNonEmptyString(partialText) && !IsNonEmptyString(Some(SliceFrom(partialText.value, st.processed))) ==>
              r.carry == st.carry && r.lines == st.lines
    // otherwise the segment is framed onto the carry: complete lines are handed on, the last piece is carried
    ensures IsNonEmptyString(partialText) && IsNonEmptyString(Some(SliceFrom(partialText.value, st.processed))) ==>
              var segment := SliceFrom(partialText.value, st.processed);
              && |r.lines| >= |st.lines| && r.lines[..|st.lines|] == st.lines
              && '\n' !in r.carry
              && (forall k :: |st.lines| <= k < |r.lines| ==> '\n' !in r.lines[k])
              && Join(r.lines[|st.lines|..] + [r.carry], '\n') == st.carry + segment
  {
    if !IsNonEmptyString(partialText) then st
    else
      var text := partialText.value;
      var segment := SliceFrom(text, st.processed);
      if !IsNonEmptyString(Some(segment)) then st.(processed := |text|)
      else
        var f := FrameSegment(st.carry, segment);
        StreamState(|text|, f.carry, st.lines + f.lines)
  }

  lemma RecordFacts()
    ensures IsNonEmptyString(Some("{}")) && IsNonEmptyString(Some("{}\n"))
    ensures !IsNonEmptyString(Some("\n"))
    ensures SliceFrom("{}", 0) == "{}" && SliceFrom("{}\n", 2) == "\n"
    ensures FrameSegment("", "{}") == Framed([], "{}")
  {
    assert !IsWhitespace("{}"[0]) && !IsWhitespace("{}\n"[0]) && IsWhitespace("\n"[0]);
    assert IndexOf("{}", '\n') == -1;
  }

  lemma FirstRecordArrives()
    ensures OnDownloadProgress(StreamStart, Some("{}")) == StreamState(2, "{}", [])
  {
    RecordFacts();
  }

  lemma NewlineArrivesAlone()
    ensures OnDownloadProgress(StreamState(2, "{}", []), Some("{}\n")) == StreamState(3, "{}", [])
  {
    RecordFacts();
  }

  /** A lone newline arriving as its own progress event is lost, merging two records into one line. */
  lemma LoneNewlineIsLost()
    ensures var st1 := OnDownloadProgress(StreamStart, Some("{}"));
            var st2 := OnDownloadProgress(st1, Some("{}\n"));
            Accounted(st1, "{}") && !Accounted(st2, "{}\n")
  {
    FirstRecordArrives();
    NewlineArrivesAlone();
    assert "{}"[..2] == "{}";
    assert "{}\n"[..3] == "{}\n" != "{}";
  }

  /** Joining two non-empty runs of pieces puts one separator between them. */
  lemma {:induction false} JoinConcat(a: seq<string>, b: seq<string>, sep: char)
    requires |a| >= 1 && |b| >= 1
    ensures Join(a + b, sep) == Join(a, sep) + [sep] + Join(b, sep)
  {
    if |a| == 1 {
      assert a + b == [a[0]] + b;
      assert (a + b)[1..] == b;
    } else {
      assert (a + b)[1..] == a[1..] + b;
      JoinConcat(a[1..], b, sep);
    }
  }

  /**
   * The handler with the evidently intended test: a segment is skipped only
   * when it is empty, so every consumed character reaches a line or the carry.
   */
  function OnDownloadProgressFixed(st: StreamState, partialText: Option<string>): (r: StreamState)
    ensures !IsNonEmptyString(partialText) ==> r == st
  {
    if !IsNonEmptyString(partialText) then st
    else
      var text := partialText.value;
      var segment := SliceFrom(text, st.processed);
      if |segment| == 0 then st.(processed := |text|)
      else
        var f := FrameSegment(st.carry, segment);
        StreamState(|text|, f.carry, st.lines + f.lines)
  }

  /** Handing on more lines keeps the rejoined text growing by exactly the new segment. */
  lemma JoinGrows(lines: seq<string>, carry: string, f: Framed, segment: string)
    requires Join(f.lines + [f.carry], '\n') == carry + segment
    ensures Join(lines + f.lines + [f.carry], '\n') == Join(lines + [carry], '\n') + segment
  {
    if |lines| == 0 {
      assert lines + f.lines + [f.carry] == f.lines + [f.carry];
      assert lines + [carry] == [carry];
    } else {
      JoinConcat(lines, [carry], '\n');
      JoinConcat(lines, f.lines + [f.carry], '\n');
      assert lines + f.lines + [f.carry] == lines + (f.lines + [f.carry]);
    }
  }

  /** The fixed handler on a non-empty new segment: the segment is framed onto the carry. */
  lemma FixedHandlerFrames(st: StreamState, text: string)
    requires IsNonEmptyString(Some(text)) && |SliceFrom(text, st.processed)| > 0
    ensures var f := FrameSegment(st.carry, SliceFrom(text, st.processed));
            OnDownloadProgressFixed(st, Some(text)) == StreamState(|text|, f.carry, st.lines + f.lines)
  {
  }

  /**
   * With the fixed handler, each event whose text extends what was consumed
   * keeps the stream accounted: no character is dropped or duplicated.
   */
  lemma FixedHandlerAccounts(st: StreamState, consumed: string, text: string)
    requires Accounted(st, consumed) && st.processed == |consumed|
    requires StartsWith(text, consumed) && IsNonEmptyString(Some(text))
    ensures var r := OnDownloadProgressFixed(st, Some(text));
            Accounted(r, text) && r.processed == |text|
  {
    var segment := SliceFrom(text, st.processed);
    assert text == consumed + segment;
    assert text[..|text|] == text;
    if |segment| > 0 {
      FixedHandlerGrows(st, consumed, text, segment);
    } else {
      assert OnDownloadProgressFixed(st, Some(text)) == st.(processed := |text|);
    }
  }

  /** The non-empty-segment case of `FixedHandlerAccounts`. */
  lemma FixedHandlerGrows(st: StreamState, consumed: string, text: string, segment: string)
    requires Accounted(st, consumed) && st.processed == |consumed|
    requires IsNonEmptyString(Some(text)) && segment == SliceFrom(text, st.processed)
    requires text == consumed + segment && |segment| > 0
    ensures var r := OnDownloadProgressFixed(st, Some(text));
            Join(r.lines + [r.carry], '\n') == text && r.processed == |text|
  {
    var f := FrameSegment(st.carry, segment);
    var r := OnDownloadProgressFixed(st, Some(text));
    FixedHandlerFrames(st, text);
    assert r.lines + [r.carry] == st.lines + f.lines + [f.carry];
    assert consumed[..st.processed] == consumed;
    JoinGrows(st.lines, st.carry, f, segment);
  }

  /** The handler as written loses nothing while every new segment has a visible character. */
  lemma AsWrittenAccountsNonBlank(st: StreamState, consumed: string, text: string)
    requires Accounted(st, consumed) && st.processed == |consumed|
    requires StartsWith(text, consumed) && IsNonEmptyString(Some(SliceFrom(text, |consumed|)))
    ensures var r := OnDownloadProgress(st, Some(text));
            Accounted(r, text) && r.processed == |text|
  {
    var segment := SliceFrom(text, |consumed|);
    var k :| 0 <= k < |segment| && !IsWhitespace(segment[k]);
    assert text[|consumed| + k] == segment[k];
    assert IsNonEmptyString(Some(text));
    assert OnDownloadProgress(st, Some(text)) == OnDownloadProgressFixed(st, Some(text));
    FixedHandlerAccounts(st, consumed, text);
  }

  // ---------------------------------------------------------------------------
  // Language resolution and id mapping
  // ---------------------------------------------------------------------------

  /** A language picker entry; `labelText` is the source's `label`, a reserved word in Dafny. */
  datatype LanguageOption = LanguageOption(labelText: string, value: string, icon: string)

  /** The language picker's table. */
  const LanguageOptions: seq<LanguageOption> := [
    LanguageOption("English", "en", "assets/flags/en.svg"),
    LanguageOption("Español", "es", "assets/flags/es.svg"),
    LanguageOption("Português Brasil", "pt-br", "assets/flags/pt-br.svg")
  ]

  /** `getActiveLang()?.toLowerCase() || 'en'`. */
  function ActiveLanguageCode(active: Option<string>): (code: string)
    ensures code != ""
    ensures active.Some? && active.value != "" ==> code == LowerStr(active.value)
    ensures active.None? || active.value == "" ==> code == "en"
    // the code never holds an upper-case letter
    ensures forall k :: 0 <= k < |code| ==> !('A' <= code[k] <= 'Z')
  {
    if active.None? || LowerStr(active.value) == "" then "en" else LowerStr(active.value)
  }

  /** Resolving an already resolved code gives it back: the code is its own active language. */
  lemma ActiveLanguageCodeStable(active: Option<string>)
    ensures ActiveLanguageCode(Some(ActiveLanguageCode(active))) == ActiveLanguageCode(active)
  {
    var code := ActiveLanguageCode(active);
    assert LowerStr(code) == code;
  }

  /** `resolveCurrentLanguage`: the label of the option whose value is the active code, else 'English'. */
  function ResolveCurrentLanguage(active: Option<string>): (shown: string)
    ensures forall k :: 0 <= k < |LanguageOptions| && LanguageOptions[k].value == ActiveLanguageCode(active) ==>
      shown == LanguageOptions[k].labelText
    ensures (forall k :: 0 <= k < |LanguageOptions| ==> LanguageOptions[k].value != ActiveLanguageCode(active)) ==>
      shown == "English"
  {
    var code := ActiveLanguageCode(active);
    if code == "en" then "English"
    else if code == "es" then assert LanguageOptions[1].value == code; "Español"
    else if code == "pt-br" then assert LanguageOptions[2].value == code; "Português Brasil"
    else "English"
  }

  /** A participant as the prompt sees it: id and display name. */
  datatype Participant = Participant(id: string, name: string)

  /** A dialogue line as parsed from the model; `id` may be missing. */
  datatype DialogueLine = DialogueLine(id: Option<string>, digimon: string, text: string)

  /** `new Map(digimons.map(d => [d.id.toLowerCase(), d.name]))`: later entries overwrite earlier ones. */
  function BuildIdToNameMap(ps: seq<Participant>): (m: map<string, string>)
    ensures forall k :: 0 <= k < |ps| ==> LowerStr(ps[k].id) in m
    ensures forall key :: key in m ==> exists k :: 0 <= k < |ps| && LowerStr(ps[k].id) == key
  {
    if |ps| == 0 then map[]
    else
      var last := ps[|ps| - 1];
      var m := BuildIdToNameMap(ps[..|ps| - 1]);
      assert forall k :: 0 <= k < |ps| - 1 ==> ps[..|ps| - 1][k] == ps[k];
      m[LowerStr(last.id) := last.name]
  }

  /** Reference reading of the map: the name of the last participant whose lower-cased id is `key`. */
  function LastNameFor(ps: seq<Participant>, key: string): Option<string> {
    if |ps| == 0 then None
    else if LowerStr(ps[|ps| - 1].id) == key then Some(ps[|ps| - 1].name)
    else LastNameFor(ps[..|ps| - 1], key)
  }

  /** The map answers every lookup as the last matching participant would. */
  lemma {:induction false} MapAgreesWithLastName(ps: seq<Participant>, key: string)
    ensures key in BuildIdToNameMap(ps) <==> LastNameFor(ps, key).Some?
    ensures key in BuildIdToNameMap(ps) ==> BuildIdToNameMap(ps)[key] == LastNameFor(ps, key).value
  {
    if |ps| > 0 {
      MapAgreesWithLastName(ps[..|ps| - 1], key);
    }
  }

  lemma MapAgreesWithLastNameAll(ps: seq<Participant>)
    ensures forall key :: key in BuildIdToNameMap(ps) <==> LastNameFor(ps, key).Some?
    ensures forall key :: key in BuildIdToNameMap(ps) ==> BuildIdToNameMap(ps)[key] == LastNameFor(ps, key).value
  {
    forall key {
      MapAgreesWithLastName(ps, key);
    }
  }

  /** The lower-cased lookup key of a line: `(line.id || '').toLowerCase()`. */
  function LineKey(line: DialogueLine): string {
    if line.id.None? then "" else LowerStr(line.id.value)
  }

  /**
   * `mapRealIds`: every line whose id names a participant (case-insensitively)
   * gets that participant's non-empty name; ids, texts and order never change.
   */
  function MapRealIds(lines: seq<DialogueLine>, ps: seq<Participant>): (r: seq<DialogueLine>)
    ensures |r| == |lines|
    ensures forall k :: 0 <= k < |lines| ==> r[k].id == lines[k].id && r[k].text == lines[k].text
    ensures forall k :: 0 <= k < |lines| ==>
      r[k].digimon == (match LastNameFor(ps, LineKey(lines[k]))
                       case Some(n) => if n != "" then n else lines[k].digimon
                       case None => lines[k].digimon)
  {
    if |lines| == 0 || |ps| == 0 then lines
    else
      var m := BuildIdToNameMap(ps);
      MapAgreesWithLastNameAll(ps);
      seq(|lines|, k requires 0 <= k < |lines| =>
        var key := LineKey(lines[k]);
        if key in m && m[key] != "" then lines[k].(digimon := m[key]) else lines[k])
  }
}
