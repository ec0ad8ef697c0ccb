/**
 * `NewVersion.new_version`: the UCS version and app version the `copy` command is sent,
 * including the rule that bumps a trailing ` ucs-N` counter of the app version.
 */
module NewVersion {
  import opened Common
  import opened AppIdentifier
  import opened AppVersions

  function DigitChar(d: nat): (c: char)
    requires d < 10
    ensures IsDigit(c)
  {
    ('0' as int + d) as char
  }

  /** `'%d' % n` for a natural number: decimal, without leading zeros. */
  function NatToString(n: nat): (s: string)
    ensures |s| > 0 && AllDigits(s)
    ensures '\n' !in s
  {
    if n < 10 then [DigitChar(n)] else NatToString(n / 10) + [DigitChar(n % 10)]
  }

  /** `int(s)` for a string of ASCII digits; leading zeros do not count. */
  function DigitsValue(s: string): nat
    requires AllDigits(s)
  {
    if s == [] then 0 else DigitsValue(s[..|s| - 1]) * 10 + (s[|s| - 1] as int - '0' as int)
  }

  /** `int` reads back what `%d` writes. */
  lemma {:induction false} DigitsValueOfNatToString(n: nat)
    ensures DigitsValue(NatToString(n)) == n
  {
    if n >= 10 {
      var s := NatToString(n);
      assert s[..|s| - 1] == NatToString(n / 10);
      DigitsValueOfNatToString(n / 10);
    }
  }

  /** Where the run of digits that ends `s` starts. */
  function TrailingDigitsStart(s: string): (k: nat)
    ensures k <= |s|
    ensures AllDigits(s[k..])
    ensures k > 0 ==> !IsDigit(s[k - 1])
  {
    if s == [] || !IsDigit(s[|s| - 1]) then |s|
    else
      var k := TrailingDigitsStart(s[..|s| - 1]);
      assert s[k..] == s[..|s| - 1][k..] + [s[|s| - 1]];
      k
  }

  /** The index just after the last newline of `s`, or 0 when it has none. */
  function LineStart(s: string): (p: nat)
    ensures p <= |s|
    ensures '\n' !in s[p..]
    ensures p > 0 ==> s[p - 1] == '\n'
  {
    if s == [] then 0
    else if s[|s| - 1] == '\n' then |s|
    else
      var p := LineStart(s[..|s| - 1]);
      assert s[p..] == s[..|s| - 1][p..] + [s[|s| - 1]];
      p
  }

  const UcsMarker: string := " ucs-"

  /** The text `$` anchors to: without `re.MULTILINE` it also matches before one final newline. */
  function Anchored(v: string): string {
    if |v| > 0 && v[|v| - 1] == '\n' then v[..|v| - 1] else v
  }

  /**
   * The groups of `re.search(r'(.*) ucs-(\d+)$', v)`. The digits are the run ending the
   * anchored text, preceded by ` ucs-`; `.` does not match a newline, so the search starts
   * the first group just after the last newline before the marker.
   */
  function MatchUcsSuffix(v: string): (m: Option<(string, string)>)
    ensures m.Some? ==> '\n' !in m.value.0 && |m.value.1| > 0 && AllDigits(m.value.1)
    ensures m.Some? ==> EndsWith(Anchored(v), m.value.0 + UcsMarker + m.value.1)
  {
    var t := Anchored(v);
    var k := TrailingDigitsStart(t);
    if 5 <= k < |t| && t[k - 5..k] == UcsMarker then
      var p := LineStart(t[..k - 5]);
      assert t[p..k - 5] == t[..k - 5][p..];
      EndsAtMarker(t, p, k);
      Some((t[p..k - 5], t[k..]))
    else
      None
  }

  /** The text from `p` on is the part before the marker, the marker and the part after it. */
  lemma EndsAtMarker(t: string, p: nat, k: nat)
    requires 5 <= k <= |t| && p <= k - 5
    requires t[k - 5..k] == UcsMarker
    ensures EndsWith(t, t[p..k - 5] + UcsMarker + t[k..])
  {
    assert t[p..] == t[p..k - 5] + t[k - 5..k] + t[k..];
  }

  /**
   * The pattern finds the counter in `plain ucs-DIGITS`, also after earlier lines and
   * before one final newline; the earlier lines are not part of the first group.
   */
  lemma MatchOfSuffixed(pre: string, plain: string, digits: string, trail: string)
    requires pre == [] || pre[|pre| - 1] == '\n'
    requires '\n' !in plain
    requires |digits| > 0 && AllDigits(digits)
    requires trail == [] || trail == "\n"
    ensures MatchUcsSuffix(pre + plain + UcsMarker + digits + trail) == Some((plain, digits))
  {
    var v := pre + plain + UcsMarker + digits + trail;
    var t := pre + plain + UcsMarker + digits;
    assert Anchored(v) == t by {
      if trail == [] {
        assert v == t;
      } else {
        assert v == t + "\n";
      }
    }
    var x := pre + plain + UcsMarker;
    assert t == x + digits;
    TrailingDigitsOfSuffix(x, digits);
    var k := |x|;
    assert t[k - 5..k] == UcsMarker;
    assert t[k..] == digits;
    var head := t[..k - 5];
    assert head == pre + plain;
    LineStartAfter(pre, plain);
    var p := |pre|;
    assert t[p..k - 5] == plain;
  }

  /** Digits after a non-digit form the trailing run. */
  lemma {:induction false} TrailingDigitsOfSuffix(x: string, digits: string)
    requires |x| > 0 && !IsDigit(x[|x| - 1])
    requires AllDigits(digits)
    ensures TrailingDigitsStart(x + digits) == |x|
  {
    if digits == [] {
      assert x + digits == x;
    } else {
      var n := |digits| - 1;
      assert (x + digits)[..|x + digits| - 1] == x + digits[..n];
      assert (x + digits)[|x + digits| - 1] == digits[n];
      TrailingDigitsOfSuffix(x, digits[..n]);
    }
  }

  /** A line without newlines after a final newline starts just after it. */
  lemma {:induction false} LineStartAfter(pre: string, line: string)
    requires pre == [] || pre[|pre| - 1] == '\n'
    requires '\n' !in line
    ensures LineStart(pre + line) == |pre|
  {
    if line == [] {
      assert pre + line == pre;
      if pre != [] {
        assert pre[..|pre| - 1] + [pre[|pre| - 1]] == pre;
      }
    } else {
      var n := |line| - 1;
      assert (pre + line)[..|pre + line| - 1] == pre + line[..n];
      assert (pre + line)[|pre + line| - 1] == line[n];
      LineStartAfter(pre, line[..n]);
    }
  }

  /** `'%s ucs-%d' % (plain, int(counter) + 1)` when the version has a counter, else `'%s ucs-1' % version`. */
  function NextAppVersion(version: string): (r: string)
    ensures r == BaseVersion(version) + UcsMarker + NatToString(UcsCounter(version) + 1)
  {
    match MatchUcsSuffix(version)
    case Some((plain, digits)) => plain + UcsMarker + NatToString(DigitsValue(digits) + 1)
    case None => version + UcsMarker + "1"
  }

  /** The counter a version carries (0 for none) and the version without it. */
  function UcsCounter(version: string): nat {
    match MatchUcsSuffix(version)
    case Some((_, digits)) => DigitsValue(digits)
    case None => 0
  }

  function BaseVersion(version: string): string {
    match MatchUcsSuffix(version)
    case Some((plain, _)) => plain
    case None => version
  }

  /** A one-line version with a counter appended carries that counter on that base. */
  lemma CounterOfSuffixed(plain: string, digits: string)
    requires '\n' !in plain
    requires |digits| > 0 && AllDigits(digits)
    ensures UcsCounter(plain + UcsMarker + digits) == DigitsValue(digits)
    ensures BaseVersion(plain + UcsMarker + digits) == plain
  {
    MatchOfSuffixed([], plain, digits, []);
  }

  /** Bumping a one-line version increments its counter and keeps the rest of it. */
  lemma NextAppVersionCounter(version: string)
    requires '\n' !in version
    ensures '\n' !in NextAppVersion(version)
    ensures UcsCounter(NextAppVersion(version)) == UcsCounter(version) + 1
    ensures BaseVersion(NextAppVersion(version)) == BaseVersion(version)
  {
    match MatchUcsSuffix(version)
    case Some((plain, digits)) => BumpCounted(version, plain, digits);
    case None => BumpUncounted(version);
  }

  lemma BumpCounted(version: string, plain: string, digits: string)
    requires MatchUcsSuffix(version) == Some((plain, digits))
    ensures '\n' !in NextAppVersion(version)
    ensures UcsCounter(NextAppVersion(version)) == DigitsValue(digits) + 1
    ensures BaseVersion(NextAppVersion(version)) == plain
  {
    var n := DigitsValue(digits) + 1;
    assert NextAppVersion(version) == plain + UcsMarker + NatToString(n);
    NoNewlineConcat(plain, NatToString(n));
    CounterOfSuffixed(plain, NatToString(n));
    DigitsValueOfNatToString(n);
  }

  lemma BumpUncounted(version: string)
    requires '\n' !in version && MatchUcsSuffix(version).None?
    ensures '\n' !in NextAppVersion(version)
    ensures UcsCounter(NextAppVersion(version)) == 1
    ensures BaseVersion(NextAppVersion(version)) == version
  {
    assert NextAppVersion(version) == version + UcsMarker + "1";
    NoNewlineConcat(version, "1");
    CounterOfSuffixed(version, "1");
  }

  lemma NoNewlineConcat(a: string, b: string)
    requires '\n' !in a && '\n' !in b
    ensures '\n' !in a + UcsMarker + b
  {
    var s := a + UcsMarker + b;
    forall i | 0 <= i < |s| ensures s[i] != '\n' {
      if i < |a| {
        assert s[i] == a[i];
      } else if i < |a| + 5 {
        assert s[i] == UcsMarker[i - |a|];
      } else {
        assert s[i] == b[i - |a| - 5];
      }
    }
  }

  /** Bumping a version always yields a different one. */
  lemma NextAppVersionDiffers(version: string)
    ensures NextAppVersion(version) != version
  {
    if '\n' in version {
      match MatchUcsSuffix(version)
      case Some((plain, digits)) =>
        NoNewlineConcat(plain, NatToString(DigitsValue(digits) + 1));
      case None =>
    } else {
      NextAppVersionCounter(version);
    }
  }

  /** The `new_ucs_version` and `new_app_version` arguments of the `copy` command. */
  datatype CopyTarget = CopyTarget(newUcsVersion: string, newAppVersion: Option<string>)

  /**
   * `new_version` for the app record found and the (possibly all-None) new identifier:
   * the UCS version defaults to the app's own; only for a copy within the same UCS
   * version without a requested app version is the version bumped.
   */
  function CopyTargetFor(app: VersionRecord, newApp: AppSpec): (t: CopyTarget)
    ensures newApp.ucsVersion.Some? && newApp.ucsVersion.value != "" ==> t.newUcsVersion == newApp.ucsVersion.value
    ensures newApp.ucsVersion.None? || newApp.ucsVersion == Some("") ==> t.newUcsVersion == app.ucsVersion
    ensures newApp.appVersion.Some? ==> t.newAppVersion == newApp.appVersion
    ensures t.newUcsVersion != app.ucsVersion ==> t.newAppVersion == newApp.appVersion
    ensures t.newUcsVersion == app.ucsVersion && newApp.appVersion.None? ==>
              t.newAppVersion == Some(NextAppVersion(app.version))
  {
    var newUcsVersion :=
      if newApp.ucsVersion.Some? && newApp.ucsVersion.value != "" then newApp.ucsVersion.value else app.ucsVersion;
    if newUcsVersion == app.ucsVersion && newApp.appVersion.None? then
      CopyTarget(newUcsVersion, Some(NextAppVersion(app.version)))
    else
      CopyTarget(newUcsVersion, newApp.appVersion)
  }

  /**
   * Unless the new identifier explicitly names the app's own version, the copy targets a
   * UCS version and app version pair different from the app's.
   */
  lemma CopyTargetIsNew(app: VersionRecord, newApp: AppSpec)
    requires newApp.appVersion != Some(app.version)
    ensures CopyTargetFor(app, newApp) != CopyTarget(app.ucsVersion, Some(app.version))
  {
    NextAppVersionDiffers(app.version);
  }
}
