/** The three line grammars the producer checks before it publishes an event
    (`Producer::is_valid_device_`, `is_valid_url_`, `is_valid_timestamp_`).
    Each grammar is a regular expression that must match the whole line; here
    each is written as a predicate over the positions where its parts meet. */
module Validation {
  import opened Text

  const DEVICE_PREFIX := "device: "
  const URL_PREFIX := "url: "
  const TIMESTAMP_PREFIX := "timestamp: "

  // ---------------------------------------------------------------------------
  // device: [[:alnum:]]{2}(\-[[:alnum:]]{2}){5}
  // ---------------------------------------------------------------------------

  /** `s` is exactly `n` repetitions of `\-[[:alnum:]]{2}`. */
  predicate HyphenPairs(s: string, n: nat)
    decreases n
  {
    if n == 0 then s == []
    else |s| >= 3 && s[0] == '-' && IsAlnum(s[1]) && IsAlnum(s[2]) && HyphenPairs(s[3..], n - 1)
  }

  /** The device grammar read off the pattern: the prefix, two alphanumerics,
      then five hyphenated pairs. */
  ghost predicate DevicePattern(line: string) {
    var p := |DEVICE_PREFIX|;
    StartsWith(line, DEVICE_PREFIX) && |line| >= p + 2
    && IsAlnum(line[p]) && IsAlnum(line[p + 1]) && HyphenPairs(line[p + 2..], 5)
  }

  /** The device grammar character by character: 25 characters, the prefix,
      then six pairs of alphanumerics with a hyphen between neighbouring pairs. */
  predicate IsValidDevice(line: string) {
    |line| == 25 && line[..8] == DEVICE_PREFIX
    && forall k :: 8 <= k < 25 ==> if (k - 8) % 3 == 2 then line[k] == '-' else IsAlnum(line[k])
  }

  lemma {:induction false} HyphenPairsLayout(s: string, n: nat)
    ensures HyphenPairs(s, n) <==>
              |s| == 3 * n && forall k :: 0 <= k < |s| ==> if k % 3 == 0 then s[k] == '-' else IsAlnum(s[k])
    decreases n
  {
    if n > 0 && |s| >= 3 {
      HyphenPairsLayout(s[3..], n - 1);
      var t := s[3..];
      assert forall k :: 0 <= k < |t| ==> t[k] == s[k + 3] && (k + 3) % 3 == k % 3;
      if |s| == 3 * n && forall k :: 0 <= k < |s| ==> if k % 3 == 0 then s[k] == '-' else IsAlnum(s[k]) {
        assert s[0] == '-' && IsAlnum(s[1]) && IsAlnum(s[2]);
        forall k | 0 <= k < |t|
          ensures if k % 3 == 0 then t[k] == '-' else IsAlnum(t[k])
        {
          assert (k + 3) % 3 == k % 3;
        }
      }
      if HyphenPairs(s, n) {
        forall k | 0 <= k < |s|
          ensures if k % 3 == 0 then s[k] == '-' else IsAlnum(s[k])
        {
          if k >= 3 {
            assert s[k] == t[k - 3] && (k - 3) % 3 == k % 3;
          }
        }
      }
    }
  }

  /** The pattern and the character-by-character layout accept the same lines. */
  lemma DeviceLayoutAgrees(line: string)
    ensures IsValidDevice(line) <==> DevicePattern(line)
  {
    if |line| >= 10 {
      var t := line[10..];
      HyphenPairsLayout(t, 5);
      assert forall k :: 10 <= k < |line| ==> line[k] == t[k - 10];
      if IsValidDevice(line) {
        forall k | 0 <= k < |t|
          ensures if k % 3 == 0 then t[k] == '-' else IsAlnum(t[k])
        {
          assert (k + 10 - 8) % 3 == 2 <==> k % 3 == 0;
        }
      }
      if DevicePattern(line) {
        forall k | 8 <= k < 25
          ensures if (k - 8) % 3 == 2 then line[k] == '-' else IsAlnum(line[k])
        {
          if k >= 10 {
            assert (k - 8) % 3 == 2 <==> (k - 10) % 3 == 0;
          }
        }
      }
    }
  }

  // ---------------------------------------------------------------------------
  // timestamp: [[:digit:]]+
  // ---------------------------------------------------------------------------

  predicate IsValidTimestamp(line: string) {
    var p := |TIMESTAMP_PREFIX|;
    StartsWith(line, TIMESTAMP_PREFIX) && |line| > p
    && forall k :: p <= k < |line| ==> IsDigit(line[k])
  }

  // ---------------------------------------------------------------------------
  // url: [^:]+://[^/]+(:[[:digit:]]+)?(/(.*))?
  // ---------------------------------------------------------------------------

  /** `url: [^:]+://` with its "://" starting at position `a`. */
  predicate SchemeEnd(line: string, a: nat) {
    StartsWith(line, URL_PREFIX) && |URL_PREFIX| < a && a + 3 <= |line|
    && (forall k :: |URL_PREFIX| <= k < a ==> line[k] != ':')
    && line[a] == ':' && line[a + 1] == '/' && line[a + 2] == '/'
  }

  /** `[^/]+` spanning `line[a + 3..b]`, just after the "://" at `a`. */
  predicate HostRun(line: string, a: nat, b: nat) {
    a + 3 < b <= |line| && forall k :: a + 3 <= k < b ==> line[k] != '/'
  }

  /** `(:[[:digit:]]+)?` spanning `s[lo..hi]`. */
  predicate PortGroup(s: string, lo: nat, hi: nat) {
    lo <= hi <= |s|
    && (lo == hi || (lo + 2 <= hi && s[lo] == ':' && forall k :: lo < k < hi ==> IsDigit(s[k])))
  }

  /** `(/(.*))?` spanning `s[lo..]` to the end of the line. */
  predicate PathGroup(s: string, lo: nat) {
    lo <= |s|
    && (lo == |s| || (s[lo] == '/' && forall k :: lo < k < |s| ==> !IsLineTerminator(s[k])))
  }

  /** The whole URL grammar matches `line` with "://" at `a`, the port group
      spanning `line[b..c]` and the path group starting at `c`. */
  predicate UrlSplitAt(line: string, a: nat, b: nat, c: nat) {
    SchemeEnd(line, a) && HostRun(line, a, b) && PortGroup(line, b, c) && PathGroup(line, c)
  }

  predicate IsValidUrl(line: string) {
    exists a: nat, b: nat, c: nat
      | a < |line| && a < b <= |line| && b <= c <= |line|
      :: UrlSplitAt(line, a, b, c)
  }

  /** A read past the end of input yields an empty line, and no grammar accepts it. */
  lemma EmptyLineIsInvalid()
    ensures !IsValidDevice("") && !IsValidUrl("") && !IsValidTimestamp("")
  {
  }

  // ---------------------------------------------------------------------------
  // Sample lines
  // ---------------------------------------------------------------------------

  lemma SampleDeviceIsValid(line: string)
    requires line == "device: ab-cd-ef-12-34-56"
    ensures IsValidDevice(line)
  {
    assert line[..8] == DEVICE_PREFIX;
    assert IsAlnum(line[8]) && IsAlnum(line[9]);
    SampleHyphenPairs(line[10..]);
    assert DevicePattern(line);
    DeviceLayoutAgrees(line);
  }

  lemma SampleHyphenPairs(t: string)
    requires t == "-cd-ef-12-34-56"
    ensures HyphenPairs(t, 5)
  {
    assert HyphenPairs(t[15..], 0);
    assert HyphenPairs(t[12..], 1);
    assert HyphenPairs(t[9..], 2);
    assert HyphenPairs(t[6..], 3);
    assert HyphenPairs(t[3..], 4);
  }

  lemma SampleTimestampIsValid(line: string)
    requires line == "timestamp: 1700000000"
    ensures IsValidTimestamp(line)
  {
  }
}
