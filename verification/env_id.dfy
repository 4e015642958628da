/** The environment identifier grammar `name[-vVERSION]`: parsing an
    identifier into a name and a version, and formatting the pair back into
    the canonical identifier `name-vVERSION`. Characters are ASCII. */
module EnvId {
  import opened Results

  /** A character of the regex class `\w`, restricted to ASCII. */
  predicate IsWordChar(c: char) {
    ('a' <= c <= 'z') || ('A' <= c <= 'Z') || ('0' <= c <= '9') || c == '_'
  }

  /** A character of the name class `[\w:.-]`. */
  predicate IsLegalChar(c: char) {
    IsWordChar(c) || c == ':' || c == '.' || c == '-'
  }

  /** A character of the regex class `\d`, restricted to ASCII. */
  predicate IsDigit(c: char) {
    '0' <= c <= '9'
  }

  predicate AllLegal(s: string) {
    forall i :: 0 <= i < |s| ==> IsLegalChar(s[i])
  }

  predicate AllDigits(s: string) {
    forall i :: 0 <= i < |s| ==> IsDigit(s[i])
  }

  /** A string the name group `[\w:.-]+?` matches as a whole. */
  predicate IsLegalName(s: string) {
    |s| > 0 && AllLegal(s)
  }

  /** `s` is a non-empty name `s[..k]` followed by the version suffix
      `-v` and one or more digits running to the end of `s`. */
  predicate IsSplitAt(s: string, k: int) {
    && 1 <= k && k + 2 < |s| && s[k] == '-' && s[k + 1] == 'v'
    && forall i :: k + 2 <= i < |s| ==> IsDigit(s[i])
  }

  function DigitValue(c: char): nat
    requires IsDigit(c)
  {
    c as int - '0' as int
  }

  function DigitChar(n: nat): char
    requires n < 10
  {
    ('0' as int + n) as char
  }

  /** The value `int()` gives a run of ASCII digits (leading zeros allowed). */
  function DigitsValue(d: string): nat
    requires AllDigits(d)
    decreases |d|
  {
    if |d| == 0 then 0 else 10 * DigitsValue(d[..|d| - 1]) + DigitValue(d[|d| - 1])
  }

  /** The decimal text of a natural number, as an f-string renders it. */
  function NatToDecimal(n: nat): (r: string)
    ensures |r| > 0 && AllDigits(r)
    ensures n > 0 ==> r[0] != '0'
    decreases n
  {
    if n < 10 then [DigitChar(n)] else NatToDecimal(n / 10) + [DigitChar(n % 10)]
  }

  /** The decimal text of an integer, with a leading '-' when negative. */
  function IntToDecimal(i: int): string {
    if i < 0 then "-" + NatToDecimal(-i) else NatToDecimal(i)
  }

  /** The reference reading of a legal identifier, independent of any search
      order: the name and version of its split when it has one (there is at
      most one, see SplitUnique), otherwise the whole string and version 0. */
  ghost function Reference(s: string): (string, nat) {
    if exists k :: IsSplitAt(s, k) then
      var k :| IsSplitAt(s, k);
      (s[..k], DigitsValue(s[k + 2..]))
    else
      (s, 0)
  }

  /** An identifier splits in at most one place: the digits after a `-v`
      cannot contain another `-v`. This is why the lazy name group finds the
      same split as any other reading would. */
  lemma SplitUnique(s: string, j: int, k: int)
    requires IsSplitAt(s, j) && IsSplitAt(s, k)
    ensures j == k
  {
  }

  lemma ReferenceAt(s: string, j: int)
    requires IsSplitAt(s, j)
    ensures Reference(s) == (s[..j], DigitsValue(s[j + 2..]))
  {
    forall k | IsSplitAt(s, k)
      ensures k == j
    {
      SplitUnique(s, j, k);
    }
  }

  /** The regex engine's search for `^(?:(?P<name>[\w:.-]+?))(?:-v(?P<version>\d+))?$`
      under fullmatch: the lazy name group has grown to `s[..k]`; the optional
      version group is tried first, then the end anchor, and only then does
      the name take one more legal character. */
  function MatchFrom(s: string, k: nat): (r: Option<(string, nat)>)
    requires 1 <= k <= |s| && AllLegal(s[..k])
    requires forall j :: 1 <= j < k ==> !IsSplitAt(s, j)
    ensures r.Some? <==> AllLegal(s)
    ensures r.Some? ==> r.value == Reference(s)
    decreases |s| - k
  {
    if IsSplitAt(s, k) then
      assert AllLegal(s) by {
        forall i | 0 <= i < |s|
          ensures IsLegalChar(s[i])
        {
          if i < k {
            assert s[i] == s[..k][i];
          }
        }
      }
      ReferenceAt(s, k);
      Some((s[..k], DigitsValue(s[k + 2..])))
    else if k == |s| then
      assert s[..k] == s;
      Some((s, 0))
    else if IsLegalChar(s[k]) then
      assert s[..k + 1] == s[..k] + [s[k]];
      MatchFrom(s, k + 1)
    else
      None
  }

  /** `ENV_NAME_RE.fullmatch(s)`: the name group needs at least one legal
      character to start. */
  function Match(s: string): (r: Option<(string, nat)>)
    ensures r.Some? <==> IsLegalName(s)
    ensures r.Some? ==> r.value == Reference(s)
  {
    if |s| == 0 || !IsLegalChar(s[0]) then
      None
    else
      assert s[..1] == [s[0]];
      MatchFrom(s, 1)
  }

  /** `parse_env_id`: fails exactly on the empty string and on strings with a
      character outside the name class; otherwise yields the reference
      reading, whose name is itself a legal name. */
  function Parse(s: string): (r: Result<(string, nat)>)
    ensures r.Ok? <==> IsLegalName(s)
    ensures r.Err? ==> r.error == MalformedId(s)
    ensures r.Ok? ==> r.value == Reference(s) && IsLegalName(r.value.0)
  {
    match Match(s)
    case None => Err(MalformedId(s))
    case Some(p) =>
      assert IsLegalName(p.0) by {
        if exists k :: IsSplitAt(s, k) {
          var k :| IsSplitAt(s, k);
          ReferenceAt(s, k);
          assert forall i :: 0 <= i < k ==> s[..k][i] == s[i];
        }
      }
      Ok(p)
  }

  /** `version or 0`: an absent version and version 0 read the same. */
  function VersionOrZero(version: Option<int>): int {
    match version
    case None => 0
    case Some(v) => v
  }

  /** `get_env_id`: the name, then `-v`, then the version in decimal. */
  function GetEnvId(name: string, version: Option<int>): (r: string)
    ensures VersionOrZero(version) == 0 ==> r == name + "-v0"
    ensures |name| + 3 <= |r| && r[..|name|] == name && r[|name|..|name| + 2] == "-v"
  {
    name + "-v" + IntToDecimal(VersionOrZero(version))
  }

  /** What register and make do to an identifier before using it as a key. */
  function Canonicalize(s: string): (r: Result<string>)
    ensures r.Ok? <==> Parse(s).Ok?
    ensures r.Err? ==> r.error == MalformedId(s)
  {
    var p :- Parse(s);
    Ok(GetEnvId(p.0, Some(p.1)))
  }

  lemma {:induction false} DecimalRoundTrip(n: nat)
    ensures DigitsValue(NatToDecimal(n)) == n
    decreases n
  {
    if n >= 10 {
      var d := NatToDecimal(n);
      assert d[..|d| - 1] == NatToDecimal(n / 10);
      DecimalRoundTrip(n / 10);
    }
  }

  /** A legal name followed by `-v` and a non-empty run of digits parses to
      that name and the digits' value. */
  lemma ParseVersionSuffix(name: string, digits: string)
    requires IsLegalName(name)
    requires |digits| > 0 && AllDigits(digits)
    ensures Parse(name + "-v" + digits) == Ok((name, DigitsValue(digits)))
  {
    var s := name + "-v" + digits;
    assert s[..|name|] == name;
    assert s[|name| + 2..] == digits;
    assert IsSplitAt(s, |name|);
    ReferenceAt(s, |name|);
    assert AllLegal(s) by {
      forall i | 0 <= i < |s|
        ensures IsLegalChar(s[i])
      {
        if i < |name| {
          assert s[i] == name[i];
        } else if |name| + 2 <= i {
          assert s[i] == digits[i - |name| - 2];
        }
      }
    }
  }

  /** A legal identifier without a version suffix parses to itself and
      version 0; this covers trailing `-v` not followed solely by digits. */
  lemma ParseWithoutSuffix(s: string)
    requires IsLegalName(s)
    requires forall k :: !IsSplitAt(s, k)
    ensures Parse(s) == Ok((s, 0))
  {
  }

  /** Formatting then parsing gives back the name and version. */
  lemma RoundTrip(name: string, version: nat)
    requires IsLegalName(name)
    ensures Parse(GetEnvId(name, Some(version))) == Ok((name, version))
  {
    ParseVersionSuffix(name, NatToDecimal(version));
    DecimalRoundTrip(version);
  }

  /** Distinct name/version pairs of legal names format to distinct ids. */
  lemma GetEnvIdInjective(n1: string, v1: nat, n2: string, v2: nat)
    requires IsLegalName(n1) && IsLegalName(n2)
    ensures GetEnvId(n1, Some(v1)) == GetEnvId(n2, Some(v2)) <==> n1 == n2 && v1 == v2
  {
    RoundTrip(n1, v1);
    RoundTrip(n2, v2);
  }

  /** A canonical identifier re-parses to the pair it was formatted from, so
      the parse in the spec's post-init step never fails on it. */
  lemma CanonicalReparses(s: string)
    requires Canonicalize(s).Ok?
    ensures Parse(Canonicalize(s).value) == Parse(s)
  {
    var p := Parse(s).value;
    RoundTrip(p.0, p.1);
  }

  /** Canonicalising twice is canonicalising once. */
  lemma CanonicalizeIdempotent(s: string)
    requires Canonicalize(s).Ok?
    ensures Canonicalize(Canonicalize(s).value) == Canonicalize(s)
  {
    CanonicalReparses(s);
  }

  lemma AllLegalConcat(a: string, b: string)
    requires AllLegal(a) && (AllLegal(b) || AllDigits(b))
    ensures AllLegal(a + b)
  {
    assert forall i :: 0 <= i < |b| ==> (a + b)[|a| + i] == b[i];
  }

  /** No split exists in a name followed by `-v-` and digits: the only `-v`
      after the name is followed by a dash, not by digits. */
  lemma NoSplitAfterDashVDash(name: string, d: string)
    requires |name| > 0 && |d| > 0 && AllDigits(d)
    ensures forall k :: !IsSplitAt(name + "-v-" + d, k)
  {
    var s := name + "-v-" + d;
    var m := |name|;
    assert s[m + 1] == 'v' && s[m + 2] == '-';
    forall k
      ensures !IsSplitAt(s, k)
    {
      if 1 <= k && k + 2 < |s| {
        if k <= m {
          assert !IsDigit(s[m + 2]);
        } else if k == m + 1 {
          assert s[k] == 'v';
        } else if k == m + 2 {
          assert s[k + 1] == d[0];
        } else {
          assert s[k] == d[k - m - 3];
        }
      }
    }
  }

  /** A negative version is formatted with its sign; the result parses back
      as a name with version 0, not as the pair it came from. */
  lemma NegativeVersionStaysInName(name: string, version: int)
    requires IsLegalName(name) && version < 0
    ensures Parse(GetEnvId(name, Some(version))) == Ok((GetEnvId(name, Some(version)), 0))
  {
    var d := NatToDecimal(-version);
    var s := GetEnvId(name, Some(version));
    assert IntToDecimal(version) == "-" + d;
    assert s == name + "-v-" + d by {
      assert s == name + "-v" + ("-" + d);
    }
    NoSplitAfterDashVDash(name, d);
    AllLegalConcat(name, "-v-");
    AllLegalConcat(name + "-v-", d);
    ParseWithoutSuffix(s);
  }

  /** The empty string and a string with a blank are malformed. */
  lemma ParseRejectsExamples()
    ensures Parse("") == Err(MalformedId(""))
    ensures Parse("foo bar") == Err(MalformedId("foo bar"))
  {
    assert !IsLegalChar("foo bar"[3]);
  }

  /** A trailing `-v` not followed solely by digits, or with nothing before
      it, belongs to the name. */
  lemma ParseKeepsSuffixInName()
    ensures Parse("foo-v") == Ok(("foo-v", 0))
    ensures Parse("foo-v-1") == Ok(("foo-v-1", 0))
    ensures Parse("-v1") == Ok(("-v1", 0))
  {
    var s := "foo-v";
    assert !IsSplitAt(s, 1) && !IsSplitAt(s, 2);
    forall k
      ensures !IsSplitAt(s, k)
    {
    }
    ParseWithoutSuffix(s);
    s := "foo-v-1";
    assert s[5] == '-' && s[6] == '1';
    assert !IsSplitAt(s, 1) && !IsSplitAt(s, 2) && !IsSplitAt(s, 3) && !IsSplitAt(s, 4);
    forall k
      ensures !IsSplitAt(s, k)
    {
    }
    ParseWithoutSuffix(s);
    s := "-v1";
    forall k
      ensures !IsSplitAt(s, k)
    {
    }
    ParseWithoutSuffix(s);
  }

  /** Only the last `-v<digits>` is the version. */
  lemma ParseTakesLastSuffix()
    ensures Parse("a-v1-v2") == Ok(("a-v1", 2))
  {
    ParseVersionSuffix("a-v1", "2");
    assert "a-v1" + "-v" + "2" == "a-v1-v2";
    assert "2"[..0] == "";
  }

  /** Canonicalisation drops leading zeros... */
  lemma CanonicalizeDropsLeadingZeros()
    ensures Canonicalize("foo-v007") == Ok("foo-v7")
  {
    assert DigitsValue("007") == 7 by {
      assert "007"[..2] == "00";
      assert "00"[..1] == "0";
      assert "0"[..0] == "";
    }
    ParseVersionSuffix("foo", "007");
    assert "foo" + "-v" + "007" == "foo-v007";
    assert NatToDecimal(7) == "7";
    assert GetEnvId("foo", Some(7)) == "foo-v7";
  }

  /** ...and supplies a missing version. */
  lemma CanonicalizeAddsVersionZero()
    ensures Canonicalize("cartpole") == Ok("cartpole-v0")
  {
    var s := "cartpole";
    forall k
      ensures !IsSplitAt(s, k)
    {
      if 1 <= k && k + 2 < |s| {
        assert s[k] != '-';
      }
    }
    ParseWithoutSuffix(s);
    assert NatToDecimal(0) == "0";
    assert GetEnvId("cartpole", Some(0)) == "cartpole-v0";
  }
}
