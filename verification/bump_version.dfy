/**
 * The release helper: it reads `--new-version=<major.minor.patch>` from
 * the command line, refuses anything else, and rewrites the first
 * `version = "N.N.N"` line of the Rust manifest. The JSON manifests and
 * `npm install` are file and process I/O and are not modelled.
 */
module BumpVersion {
  import opened Wrappers
  import opened JsArray
  import opened JsText

  const ArgPrefix := "--new-version="

  /** The regular-expression class `\d`: ASCII digits only. */
  predicate IsDigit(c: char) {
    '0' <= c <= '9'
  }

  function HasArgPrefix(): string -> bool {
    (arg: string) => StartsWith(arg, ArgPrefix)
  }

  /** `split("=")[1].trim()`: the text between the first and the second `=`, trimmed. */
  function ArgValue(arg: string): (v: string)
    requires StartsWith(arg, ArgPrefix)
    ensures '=' !in v
    ensures '=' !in arg[|ArgPrefix|..] ==> v == Trim(arg[|ArgPrefix|..])
  {
    assert arg[13] == '=' && '=' !in arg[..13] by {
      assert arg[..14] == ArgPrefix;
      assert arg[..13] == ArgPrefix[..13];
    }
    assert IndexOf(arg, '=') == 13;
    var parts := Split(arg, '=');
    assert parts == [arg[..13]] + Split(arg[14..], '=');
    SplitOmitsSep(arg, '=');
    var v := Trim(parts[1]);
    TrimIsSlice(parts[1]);
    assert '=' !in parts[1];
    v
  }

  /** The digit run at the start of `s`: its length. */
  function DigitRun(s: string): (n: nat)
    ensures n <= |s|
  {
    if |s| == 0 || !IsDigit(s[0]) then 0 else 1 + DigitRun(s[1..])
  }

  /** The run is made of digits and is not followed by one. */
  lemma {:induction false} DigitRunSpec(s: string)
    ensures forall p :: 0 <= p < DigitRun(s) ==> IsDigit(s[p])
    ensures DigitRun(s) < |s| ==> !IsDigit(s[DigitRun(s)])
  {
    if |s| > 0 && IsDigit(s[0]) {
      DigitRunSpec(s[1..]);
      assert forall p :: 0 < p < DigitRun(s) ==> s[p] == s[1..][p - 1];
    }
  }

  /** Only one length fits the description of the leading digit run. */
  lemma {:induction false} DigitRunUnique(s: string, n: nat)
    requires n <= |s|
    requires forall p :: 0 <= p < n ==> IsDigit(s[p])
    requires n < |s| ==> !IsDigit(s[n])
    ensures DigitRun(s) == n
  {
    if n > 0 {
      assert forall p :: 0 <= p < n - 1 ==> s[1..][p] == s[p + 1];
      DigitRunUnique(s[1..], n - 1);
    }
  }

  predicate DigitsBetween(s: string, lo: nat, hi: nat)
    requires lo <= hi <= |s|
  {
    forall p :: lo <= p < hi ==> IsDigit(s[p])
  }

  /**
   * `s` starts with `\d+\.\d+\.\d+` whose dots sit at `a` and `b` and
   * whose last digit run ends at `c`, not followed by another digit.
   */
  predicate Shape(s: string, a: nat, b: nat, c: nat) {
    && 0 < a && a + 1 < b && b + 1 < c && c <= |s|
    && DigitsBetween(s, 0, a) && s[a] == '.'
    && DigitsBetween(s, a + 1, b) && s[b] == '.'
    && DigitsBetween(s, b + 1, c)
    && (c == |s| || !IsDigit(s[c]))
  }

  /** Matching `\d+\.\d+\.\d+` at the start of `s` (greedy); the end of the match. */
  function MatchVersion(s: string): (m: Option<nat>)
    ensures m.Some? ==> 4 < m.value <= |s|
  {
    var a := DigitRun(s);
    if a == 0 || a >= |s| || s[a] != '.' then None
    else
      var b := a + 1 + DigitRun(s[a + 1..]);
      if b == a + 1 || b >= |s| || s[b] != '.' then None
      else
        var c := b + 1 + DigitRun(s[b + 1..]);
        if c == b + 1 then None else Some(c)
  }

  /** What the matcher reports is a match of the pattern. */
  lemma MatchVersionSound(s: string)
    requires MatchVersion(s).Some?
    ensures exists a, b :: Shape(s, a, b, MatchVersion(s).value)
  {
    var a := DigitRun(s);
    assert 0 < a < |s| && s[a] == '.';
    var b := a + 1 + DigitRun(s[a + 1..]);
    assert a + 1 < b < |s| && s[b] == '.';
    var c := b + 1 + DigitRun(s[b + 1..]);
    assert MatchVersion(s) == Some(c);
    assert DigitsBetween(s, 0, a) by {
      DigitRunSpec(s);
    }
    assert DigitsBetween(s, a + 1, b) by {
      RunAt(s, a + 1);
    }
    assert DigitsBetween(s, b + 1, c) && (c == |s| || !IsDigit(s[c])) by {
      RunAt(s, b + 1);
    }
    assert Shape(s, a, b, c);
  }

  /** The digit run starting at `lo`, in the coordinates of `s`. */
  lemma RunAt(s: string, lo: nat)
    requires lo <= |s|
    ensures var e := lo + DigitRun(s[lo..]);
            e <= |s| && DigitsBetween(s, lo, e) && (e < |s| ==> !IsDigit(s[e]))
  {
    var t := s[lo..];
    DigitRunSpec(t);
    assert forall p :: lo <= p < |s| ==> s[p] == t[p - lo];
  }

  /** Whenever the shape is there, the matcher finds it. */
  lemma MatchVersionComplete(s: string, a: nat, b: nat, c: nat)
    requires Shape(s, a, b, c)
    ensures MatchVersion(s) == Some(c)
  {
    DigitRunUnique(s, a);
    var t := s[a + 1..];
    assert forall p :: 0 <= p < b - a - 1 ==> t[p] == s[p + a + 1];
    DigitRunUnique(t, b - a - 1);
    var u := s[b + 1..];
    assert forall p :: 0 <= p < c - b - 1 ==> u[p] == s[p + b + 1];
    DigitRunUnique(u, c - b - 1);
  }

  /** The `/^\d+\.\d+\.\d+$/` test: the whole text has the shape. */
  ghost predicate IsValidVersion(v: string) {
    exists a, b :: Shape(v, a, b, |v|)
  }

  /** The matcher accepts the whole text exactly when the text is a valid version. */
  lemma ValidVersionIff(v: string)
    ensures IsValidVersion(v) <==> MatchVersion(v) == Some(|v|)
  {
    if IsValidVersion(v) {
      var a, b :| Shape(v, a, b, |v|);
      MatchVersionComplete(v, a, b, |v|);
    }
    if MatchVersion(v) == Some(|v|) {
      MatchVersionSound(v);
    }
  }

  /** Three digit runs joined by dots form a valid version. */
  lemma JoinedIsValid(major: string, minor: string, patch: string)
    requires |major| > 0 && |minor| > 0 && |patch| > 0
    requires DigitsBetween(major, 0, |major|) && DigitsBetween(minor, 0, |minor|) && DigitsBetween(patch, 0, |patch|)
    ensures IsValidVersion(major + "." + minor + "." + patch)
  {
    var v := major + "." + minor + "." + patch;
    var a := |major|;
    var b := a + 1 + |minor|;
    assert forall p :: a + 1 <= p < b ==> v[p] == minor[p - a - 1];
    assert forall p :: b + 1 <= p < |v| ==> v[p] == patch[p - b - 1];
    assert Shape(v, a, b, |v|);
  }

  /** The example of the usage message passes; a short, prefixed or suffixed version does not. */
  lemma VersionExamples()
    ensures IsValidVersion("0.4.0")
    ensures !IsValidVersion("0.4") && !IsValidVersion("v0.4.0") && !IsValidVersion("0.4.0-beta")
  {
    assert IsValidVersion("0.4.0") by {
      assert Shape("0.4.0", 1, 3, 5);
    }
    assert !IsValidVersion("0.4") by {
      ValidVersionIff("0.4");
    }
    assert !IsValidVersion("v0.4.0") by {
      ValidVersionIff("v0.4.0");
    }
    assert !IsValidVersion("0.4.0-beta") by {
      ValidVersionIff("0.4.0-beta");
      MatchVersionComplete("0.4.0-beta", 1, 3, 5);
    }
  }

  /** A valid version followed by a non-digit still matches up to the version's end. */
  lemma MatchVersionExtend(v: string, z: string)
    requires IsValidVersion(v) && |z| > 0 && !IsDigit(z[0])
    ensures MatchVersion(v + z) == Some(|v|)
  {
    var a, b :| Shape(v, a, b, |v|);
    var s := v + z;
    assert forall p :: 0 <= p < |v| ==> s[p] == v[p];
    assert Shape(s, a, b, |v|);
    MatchVersionComplete(s, a, b, |v|);
  }

  /** A match depends only on the text up to and including the character after it. */
  lemma MatchVersionLocal(x: string, y: string, n: nat)
    requires MatchVersion(x) == Some(n) && n < |x| && n < |y| && x[..n + 1] == y[..n + 1]
    ensures MatchVersion(y) == Some(n)
  {
    MatchVersionSound(x);
    var a, b :| Shape(x, a, b, n);
    assert forall p :: 0 <= p <= n ==> y[p] == x[p] by {
      forall p | 0 <= p <= n ensures y[p] == x[p] {
        assert y[p] == y[..n + 1][p];
      }
    }
    assert Shape(y, a, b, n);
    MatchVersionComplete(y, a, b, n);
  }

  /** The literal text the manifest pattern starts with. */
  const CargoPrefix := "version = \""

  /** `version = "\d+\.\d+\.\d+"` at the start of `s`: the length of the match. */
  function CargoMatch(s: string): (m: Option<nat>)
    ensures m.Some? ==> |CargoPrefix| + 1 < m.value <= |s|
  {
    if !StartsWith(s, CargoPrefix) then None
    else
      var t := s[|CargoPrefix|..];
      var m := MatchVersion(t);
      if m.Some? && m.value < |t| && t[m.value] == '"' then Some(|CargoPrefix| + m.value + 1)
      else None
  }

  /** The text a version match covers is a valid version, made of digits and dots only. */
  lemma MatchedIsValid(t: string, c: nat)
    requires MatchVersion(t) == Some(c)
    ensures c <= |t| && IsValidVersion(t[..c])
    ensures forall p :: 0 <= p < c ==> IsDigit(t[p]) || t[p] == '.'
  {
    MatchVersionSound(t);
    var a, b :| Shape(t, a, b, c);
    var version := t[..c];
    assert forall p :: 0 <= p < c ==> version[p] == t[p];
    assert Shape(version, a, b, c);
  }

  /** A manifest match is the prefix, a valid version and a closing quote. */
  lemma CargoMatchShape(s: string)
    requires CargoMatch(s).Some?
    ensures var n := CargoMatch(s).value;
            && StartsWith(s, CargoPrefix) && s[n - 1] == '"'
            && IsValidVersion(s[|CargoPrefix|..n - 1])
  {
    var k := |CargoPrefix|;
    var n := CargoMatch(s).value;
    MatchedIsValid(s[k..], n - k - 1);
    assert s[k..][..n - k - 1] == s[k..n - 1];
  }

  /** A manifest match has no `v` after its first character. */
  lemma CargoMatchOneV(s: string)
    requires CargoMatch(s).Some?
    ensures forall p :: 0 < p < CargoMatch(s).value ==> s[p] != 'v'
  {
    var k := |CargoPrefix|;
    var n := CargoMatch(s).value;
    var t := s[k..];
    MatchedIsValid(t, n - k - 1);
    forall p | 0 < p < n ensures s[p] != 'v' {
      if p < k {
        assert s[p] == s[..k][p] == CargoPrefix[p];
      } else if p < n - 1 {
        assert s[p] == t[p - k];
      }
    }
  }

  /** A manifest match depends only on the matched text. */
  lemma CargoMatchLocal(x: string, y: string, n: nat)
    requires CargoMatch(x) == Some(n) && n <= |y| && x[..n] == y[..n]
    ensures CargoMatch(y) == Some(n)
  {
    var k := |CargoPrefix|;
    assert y[..k] == x[..n][..k];
    var tx := x[k..];
    var ty := y[k..];
    var c := n - k - 1;
    assert MatchVersion(tx).Some? && MatchVersion(tx).value == c;
    assert tx[..c + 1] == ty[..c + 1] by {
      assert tx[..c + 1] == x[k..n];
      assert ty[..c + 1] == y[k..n];
      assert x[k..n] == x[..n][k..];
      assert y[k..n] == y[..n][k..];
    }
    MatchVersionLocal(tx, ty, c);
    assert ty[c] == y[n - 1];
    assert y[n - 1] == y[..n][n - 1];
  }

  /** Every manifest match no longer than `bound` carries over to text agreeing on the first `bound` characters. */
  lemma CargoMatchLocalAll(x: string, y: string, bound: nat)
    requires bound <= |x| && bound <= |y| && x[..bound] == y[..bound]
    ensures forall n :: n <= bound && CargoMatch(x) == Some(n) ==> CargoMatch(y) == Some(n)
  {
    forall n | n <= bound && CargoMatch(x) == Some(n) ensures CargoMatch(y) == Some(n) {
      assert x[..n] == x[..bound][..n];
      assert y[..n] == y[..bound][..n];
      CargoMatchLocal(x, y, n);
    }
  }

  /** No manifest match starts at a position in `[from, to)`. */
  predicate NoMatchIn(s: string, from: nat, to: nat)
    requires to <= |s| + 1
    decreases if from < to then to - from else 0
  {
    from >= to || (CargoMatch(s[from..]).None? && NoMatchIn(s, from + 1, to))
  }

  /** `NoMatchIn`, stated position by position. */
  lemma {:induction false} NoMatchInAll(s: string, from: nat, to: nat)
    requires to <= |s| + 1
    ensures NoMatchIn(s, from, to) <==> (forall k :: from <= k < to ==> CargoMatch(s[k..]).None?)
    decreases if from < to then to - from else 0
  {
    if from < to {
      NoMatchInAll(s, from + 1, to);
      var here := CargoMatch(s[from..]).None?;
      assert NoMatchIn(s, from, to) <==> here && NoMatchIn(s, from + 1, to);
      if !NoMatchIn(s, from, to) && here {
        var k :| from + 1 <= k < to && CargoMatch(s[k..]).Some?;
      }
    }
  }

  /** Where the leftmost manifest match at or after `from` starts. */
  function FirstMatch(s: string, from: nat): (r: Option<nat>)
    requires from <= |s|
    ensures r.None? <==> NoMatchIn(s, from, |s| + 1)
    ensures r.Some? ==> from <= r.value <= |s| && CargoMatch(s[r.value..]).Some? && NoMatchIn(s, from, r.value)
    decreases |s| - from
  {
    if CargoMatch(s[from..]).Some? then Some(from)
    else if from == |s| then None
    else FirstMatch(s, from + 1)
  }

  /** A match with none before it is the one `FirstMatch` reports. */
  lemma {:induction false} FirstMatchIsLeftmost(s: string, from: nat, i: nat)
    requires from <= i <= |s| && CargoMatch(s[i..]).Some?
    requires NoMatchIn(s, from, i)
    ensures FirstMatch(s, from) == Some(i)
    decreases i - from
  {
    if from < i {
      FirstMatchIsLeftmost(s, from + 1, i);
    }
  }

  /** The version between the quotes of a manifest match at the start of `t`. */
  function MatchedVersion(t: string): (v: string)
    requires CargoMatch(t).Some?
    ensures IsValidVersion(v)
  {
    CargoMatchShape(t);
    t[|CargoPrefix|..CargoMatch(t).value - 1]
  }

  /** The version the manifest declares first, if any. */
  function ReadVersion(s: string): (v: Option<string>)
    ensures v.Some? ==> IsValidVersion(v.value)
    ensures v.None? <==> NoMatchIn(s, 0, |s| + 1)
  {
    match FirstMatch(s, 0)
    case None => None
    case Some(i) => Some(MatchedVersion(s[i..]))
  }

  /** A manifest declares no version exactly when no position starts a match. */
  lemma ReadVersionNone(s: string)
    ensures ReadVersion(s).None? <==> forall k :: 0 <= k <= |s| ==> CargoMatch(s[k..]).None?
  {
    NoMatchInAll(s, 0, |s| + 1);
  }

  /** `s` with the characters in `[i, j)` replaced by `text`. */
  function ReplaceRange(s: string, i: nat, j: nat, text: string): (r: string)
    requires i <= j <= |s|
    ensures |r| == |s| - (j - i) + |text|
    ensures r[..i] == s[..i] && r[i..] == text + s[j..]
  {
    var r := s[..i] + text + s[j..];
    assert r[..i] == s[..i];
    assert r[i..] == text + s[j..];
    r
  }

  /** The text after a manifest match at the start of `t`. */
  function AfterMatch(t: string): (rest: string)
    requires CargoMatch(t).Some?
    ensures |rest| < |t| && rest == t[|t| - |rest|..]
  {
    t[CargoMatch(t).value..]
  }

  /** `cargoContent.replace(pattern, 'version = "<new>"')`: only the leftmost match is rewritten. */
  function ReplaceFirstVersion(s: string, newVersion: string): (r: string)
    ensures FirstMatch(s, 0).None? ==> r == s
    ensures FirstMatch(s, 0).Some? ==>
              var i := FirstMatch(s, 0).value;
              i <= |r| && r[..i] == s[..i] && r[i..] == CargoPrefix + newVersion + "\"" + AfterMatch(s[i..])
  {
    match FirstMatch(s, 0)
    case None => s
    case Some(i) =>
      var j := i + CargoMatch(s[i..]).value;
      assert s[j..] == s[i..][j - i..];
      ReplaceRange(s, i, j, CargoPrefix + newVersion + "\"")
  }

  /** Text the rewrite produces matches the pattern, and the version read from it is the one written. */
  lemma WrittenMatch(here: string, v: string, rest: string)
    requires IsValidVersion(v) && here == CargoPrefix + v + "\"" + rest
    ensures CargoMatch(here) == Some(|CargoPrefix| + |v| + 1)
    ensures MatchedVersion(here) == v
  {
    var k := |CargoPrefix|;
    var tail := "\"" + rest;
    assert here[..k] == CargoPrefix;
    assert here[k..] == v + tail;
    MatchVersionExtend(v, tail);
    assert here[k..k + |v|] == v;
  }

  /**
   * Text that agrees with `s` before position `i` and has a `v` at `i`
   * has no match at `p < i` when `s` has none there: a match at `p` would
   * have to run past the `v`, and so would also be a match in `s`.
   */
  lemma NoMatchAtBeforeV(s: string, r: string, i: nat, p: nat)
    requires p < i <= |s| && i < |r| && r[..i] == s[..i] && r[i] == 'v'
    requires CargoMatch(s[p..]).None?
    ensures CargoMatch(r[p..]).None?
  {
    var t := r[p..];
    assert t[i - p] == 'v';
    if CargoMatch(t).Some? {
      CargoMatchOneV(t);
    }
    assert t[..i - p] == s[p..][..i - p] by {
      assert t[..i - p] == r[..i][p..];
      assert s[p..][..i - p] == s[..i][p..];
    }
    CargoMatchLocalAll(t, s[p..], i - p);
  }

  /** `NoMatchAtBeforeV` for every position in `[from, i)`. */
  lemma {:induction false} NoMatchBeforeV(s: string, r: string, i: nat, from: nat)
    requires i <= |s| && i < |r| && r[..i] == s[..i] && r[i] == 'v'
    requires NoMatchIn(s, from, i)
    ensures NoMatchIn(r, from, i)
    decreases if from < i then i - from else 0
  {
    if from < i {
      NoMatchAtBeforeV(s, r, i, from);
      NoMatchBeforeV(s, r, i, from + 1);
    }
  }

  /** After the rewrite, the manifest's first version is the new one; a manifest without a match is left as it was. */
  lemma ReplaceThenRead(s: string, v: string)
    requires IsValidVersion(v)
    ensures FirstMatch(s, 0).Some? ==> ReadVersion(ReplaceFirstVersion(s, v)) == Some(v)
    ensures FirstMatch(s, 0).None? ==> ReplaceFirstVersion(s, v) == s && ReadVersion(s).None?
  {
    if FirstMatch(s, 0).Some? {
      var i := FirstMatch(s, 0).value;
      var r := ReplaceFirstVersion(s, v);
      var rest := AfterMatch(s[i..]);
      WrittenMatch(r[i..], v, rest);
      assert r[i] == r[i..][0] == 'v';
      NoMatchBeforeV(s, r, i, 0);
      FirstMatchIsLeftmost(r, 0, i);
    }
  }

  /** What the script does before touching any file. */
  datatype BumpOutcome = MissingArgument | InvalidVersion(value: string) | Bump(version: string)

  /** The argument handling: exit 1 without the argument or with a malformed version. */
  function ParseArgs(args: seq<string>): (o: BumpOutcome)
    ensures o.MissingArgument? <==> forall k :: 0 <= k < |args| ==> !StartsWith(args[k], ArgPrefix)
    ensures o.Bump? ==> IsValidVersion(o.version)
    ensures o.InvalidVersion? ==> !IsValidVersion(o.value)
    ensures !o.MissingArgument? ==>
              var k := FindIndex(args, HasArgPrefix());
              0 <= k < |args| && StartsWith(args[k], ArgPrefix)
              && (forall j :: 0 <= j < k ==> !StartsWith(args[j], ArgPrefix))
              && (if o.Bump? then o.version else o.value) == ArgValue(args[k])
  {
    var k := FindIndex(args, HasArgPrefix());
    if k == -1 then
      assert forall j :: 0 <= j < |args| ==> !HasArgPrefix()(args[j]);
      MissingArgument
    else
      assert HasArgPrefix()(args[k]);
      assert forall j :: 0 <= j < k ==> !HasArgPrefix()(args[j]);
      var v := ArgValue(args[k]);
      ValidVersionIff(v);
      if MatchVersion(v) == Some(|v|) then Bump(v) else InvalidVersion(v)
  }

  /** A valid version passed as `--new-version=<v>` is read back unchanged, whatever follows it. */
  lemma FormattedArgumentRoundTrip(before: seq<string>, v: string, after: seq<string>)
    requires IsValidVersion(v)
    requires forall k :: 0 <= k < |before| ==> !StartsWith(before[k], ArgPrefix)
    ensures ParseArgs(before + [ArgPrefix + v] + after) == Bump(v)
  {
    var args := before + [ArgPrefix + v] + after;
    var arg := ArgPrefix + v;
    assert args[|before|] == arg;
    assert forall k :: 0 <= k < |before| ==> args[k] == before[k];
    assert HasArgPrefix()(arg) by {
      assert arg[..|ArgPrefix|] == ArgPrefix;
    }
    assert FindIndex(args, HasArgPrefix()) == |before|;
    var a, b :| Shape(v, a, b, |v|);
    assert forall p :: 0 <= p < |v| ==> IsDigit(v[p]) || v[p] == '.';
    assert arg[|ArgPrefix|..] == v;
    assert '=' !in v;
    TrimFramed(v);
  }

  /** The whole run on the manifest: exit 1 and leave it alone, or rewrite its first version. */
  function BumpCargo(args: seq<string>, cargo: string): (r: Option<string>)
    ensures r.None? <==> !ParseArgs(args).Bump?
    ensures r.Some? && ReadVersion(cargo).Some? ==> ReadVersion(r.value) == Some(ParseArgs(args).version)
    ensures r.Some? && ReadVersion(cargo).None? ==> r.value == cargo
  {
    match ParseArgs(args)
    case Bump(v) =>
      ReplaceThenRead(cargo, v);
      Some(ReplaceFirstVersion(cargo, v))
    case _ => None
  }
}
