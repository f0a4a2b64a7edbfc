/**
 * The breach lookup of password_checker.py (check_pwned), after hashing.
 *
 * The SHA-1 digest of the password is an input: the source computes it with
 * hashlib and renders it as 40 upper-case hexadecimal digits.  The HTTP GET
 * is an input too, as a function from the requested URL to the response, so
 * that what is sent to the service is visible in the contracts.
 */
module Pwned {
  import opened PyText

  /** The range endpoint of the Pwned Passwords service. */
  const RangeApi: string := "https://api.pwnedpasswords.com/range/"

  const HexDigits: string := "0123456789ABCDEF"

  /** What `hashlib.sha1(...).hexdigest().upper()` produces. */
  predicate IsUpperHexDigest(d: string) {
    |d| == 40 && forall i :: 0 <= i < |d| ==> d[i] in HexDigits
  }

  /** `sha1[:5], sha1[5:]`, with Python's clamping of slice bounds. */
  function SplitHash(sha1: string): (parts: (string, string))
    ensures parts.0 + parts.1 == sha1
    ensures |parts.0| == if |sha1| < 5 then |sha1| else 5
  {
    var k := if |sha1| < 5 then |sha1| else 5;
    assert sha1[..k] + sha1[k..] == sha1;
    (sha1[..k], sha1[k..])
  }

  /** A digest splits into a 5-digit prefix and a 35-digit suffix, both hexadecimal. */
  lemma SplitHashOfDigest(sha1: string)
    requires IsUpperHexDigest(sha1)
    ensures var (prefix, suffix) := SplitHash(sha1);
      && |prefix| == 5 && |suffix| == 35
      && (forall i :: 0 <= i < 5 ==> prefix[i] in HexDigits)
      && (forall i :: 0 <= i < 35 ==> suffix[i] in HexDigits)
  {
    var (prefix, suffix) := SplitHash(sha1);
    assert forall i :: 0 <= i < 35 ==> suffix[i] == sha1[5 + i];
  }

  /** The URL requested for a hash prefix. */
  function RangeUrl(prefix: string): (url: string)
    ensures |url| == |RangeApi| + |prefix|
    ensures url[..|RangeApi|] == RangeApi && url[|RangeApi|..] == prefix
  {
    RangeApi + prefix
  }

  /**
   * Only the prefix reaches the service: two digests are queried with the
   * same URL exactly when their first five digits agree.
   */
  lemma QuerySeesOnlyPrefix(d1: string, d2: string)
    requires IsUpperHexDigest(d1) && IsUpperHexDigest(d2)
    ensures RangeUrl(SplitHash(d1).0) == RangeUrl(SplitHash(d2).0) <==> d1[..5] == d2[..5]
  {
    var u1, u2 := RangeUrl(SplitHash(d1).0), RangeUrl(SplitHash(d2).0);
    if u1 == u2 {
      assert u1[|RangeApi|..] == d1[..5];
      assert u2[|RangeApi|..] == d2[..5];
    }
  }

  /** The outcome of `requests.get` plus `raise_for_status`. */
  datatype Response = RequestFailed | Ok(text: string)

  /** The ValueError check_pwned lets escape. */
  datatype ValueError =
    | UnpackError(line: string)      // the line does not hold exactly one ':'
    | NotAnInteger(count: string)    // the count of the matching line is not an integer

  /**
   * What check_pwned produces: `(None, 0)`, `(True, n)`, `(False, 0)`, or an
   * uncaught exception.
   */
  datatype PwnedResult =
    | ApiError
    | Leaked(count: int)
    | NotLeaked
    | Raised(error: ValueError)

  /** `leaked_suffix, count = line.split(':')`. */
  function ParseRecord(line: string): Option<(string, string)> {
    SplitPair(line, ':')
  }

  /** A well-formed record line for another suffix. */
  predicate IsMiss(line: string, suffix: string) {
    ParseRecord(line).Some? && ParseRecord(line).value.0 != suffix
  }

  /** A well-formed record line for this suffix. */
  predicate IsHit(line: string, suffix: string) {
    ParseRecord(line).Some? && ParseRecord(line).value.0 == suffix
  }

  /** Every line before `i` is a well-formed record for another suffix. */
  predicate MissesBefore(leaks: seq<string>, suffix: string, i: nat)
    requires i <= |leaks|
  {
    forall j :: 0 <= j < i ==> IsMiss(leaks[j], suffix)
  }

  /** The scan of the response lines, one line at a time, stopping at the first match. */
  function Scan(leaks: seq<string>, suffix: string): (r: PwnedResult)
    ensures r != ApiError
  {
    if leaks == [] then NotLeaked
    else
      var record := ParseRecord(leaks[0]);
      if record.None? then Raised(UnpackError(leaks[0]))
      else if record.value.0 != suffix then Scan(leaks[1..], suffix)
      else
        var count := ParseInt(record.value.1);
        if count.None? then Raised(NotAnInteger(record.value.1)) else Leaked(count.value)
  }

  /** The loop of check_pwned over the lines of the response. */
  method ScanLeaks(leaks: seq<string>, hashSuffix: string) returns (r: PwnedResult)
    ensures r == Scan(leaks, hashSuffix)
  {
    var i := 0;
    while i < |leaks|
      invariant 0 <= i <= |leaks|
      invariant Scan(leaks[i..], hashSuffix) == Scan(leaks, hashSuffix)
    {
      assert leaks[i..][1..] == leaks[i + 1..];
      var fields := ParseRecord(leaks[i]);
      if fields.None? {
        return Raised(UnpackError(leaks[i]));
      }
      var (leakedSuffix, count) := fields.value;
      if leakedSuffix == hashSuffix {
        var n := ParseInt(count);
        if n.None? {
          return Raised(NotAnInteger(count));
        }
        return Leaked(n.value);
      }
      i := i + 1;
    }
    return NotLeaked;
  }

  /**
   * check_pwned from the digest on.  A failed request gives ApiError;
   * otherwise the lines of the body are scanned for the suffix.
   */
  method CheckPwned(sha1: string, get: string -> Response) returns (r: PwnedResult)
    ensures get(RangeUrl(SplitHash(sha1).0)) == RequestFailed ==> r == ApiError
    ensures get(RangeUrl(SplitHash(sha1).0)).Ok? ==>
      r == Scan(SplitLines(get(RangeUrl(SplitHash(sha1).0)).text), SplitHash(sha1).1)
  {
    var (hashPrefix, hashSuffix) := SplitHash(sha1);
    var apiUrl := RangeUrl(hashPrefix);
    var response := get(apiUrl);
    if response.RequestFailed? {
      return ApiError;
    }
    var leaks := SplitLines(response.text);
    r := ScanLeaks(leaks, hashSuffix);
  }

  // ---------------------------------------------------------------------
  // Properties of the scan

  /** Not found exactly when every line is a well-formed record for another suffix. */
  lemma {:induction false} ScanNotLeakedIff(leaks: seq<string>, suffix: string)
    ensures Scan(leaks, suffix) == NotLeaked <==> MissesBefore(leaks, suffix, |leaks|)
  {
    if leaks != [] {
      ScanNotLeakedIff(leaks[1..], suffix);
      assert forall j :: 1 <= j < |leaks| ==> leaks[j] == leaks[1..][j - 1];
    }
  }

  /** Line `i` is the first record for the suffix, every line before it a record for another, and its count reads as n. */
  predicate FirstHitAt(leaks: seq<string>, suffix: string, i: nat, n: int) {
    && i < |leaks| && MissesBefore(leaks, suffix, i) && IsHit(leaks[i], suffix)
    && ParseInt(ParseRecord(leaks[i]).value.1) == Some(n)
  }

  /** The index of the first line that is not a record for another suffix, or the number of lines. */
  function FirstNonMiss(leaks: seq<string>, suffix: string): (i: nat)
    ensures i <= |leaks| && MissesBefore(leaks, suffix, i)
    ensures i < |leaks| ==> !IsMiss(leaks[i], suffix)
  {
    if leaks == [] || !IsMiss(leaks[0], suffix) then 0
    else
      var k := FirstNonMiss(leaks[1..], suffix);
      assert forall j :: 1 <= j < k + 1 ==> leaks[j] == leaks[1..][j - 1];
      k + 1
  }

  /** A found result comes from the first record for the suffix. */
  lemma ScanLeakedWitness(leaks: seq<string>, suffix: string, n: int) returns (i: nat)
    requires Scan(leaks, suffix) == Leaked(n)
    ensures FirstHitAt(leaks, suffix, i, n)
  {
    i := FirstNonMiss(leaks, suffix);
    ScanAfterMisses(leaks, suffix, i);
    FirstLineLeaked(leaks[i..], suffix, n);
    assert leaks[i..][0] == leaks[i];
  }

  lemma FirstLineLeaked(leaks: seq<string>, suffix: string, n: int)
    requires Scan(leaks, suffix) == Leaked(n)
    requires leaks != [] ==> !IsMiss(leaks[0], suffix)
    ensures leaks != [] && IsHit(leaks[0], suffix)
    ensures ParseInt(ParseRecord(leaks[0]).value.1) == Some(n)
  {
  }

  /** The first record for the suffix decides the result. */
  lemma ScanOfFirstHit(leaks: seq<string>, suffix: string, i: nat, n: int)
    requires FirstHitAt(leaks, suffix, i, n)
    ensures Scan(leaks, suffix) == Leaked(n)
  {
    ScanAfterMisses(leaks, suffix, i);
    assert leaks[i..][0] == leaks[i];
    ScanOfHitLine(leaks[i..], suffix, n);
  }

  /** Lines that are records for other suffixes are skipped. */
  lemma {:induction false} ScanAfterMisses(leaks: seq<string>, suffix: string, i: nat)
    requires i <= |leaks| && MissesBefore(leaks, suffix, i)
    ensures Scan(leaks, suffix) == Scan(leaks[i..], suffix)
  {
    if i > 0 {
      ScanPastMiss(leaks, suffix);
      var tail := leaks[1..];
      assert forall j :: 0 <= j < i - 1 ==> tail[j] == leaks[j + 1];
      ScanAfterMisses(tail, suffix, i - 1);
      assert tail[i - 1..] == leaks[i..];
    }
  }

  lemma ScanPastMiss(leaks: seq<string>, suffix: string)
    requires leaks != [] && IsMiss(leaks[0], suffix)
    ensures Scan(leaks, suffix) == Scan(leaks[1..], suffix)
  {
  }

  lemma ScanOfHitLine(leaks: seq<string>, suffix: string, n: int)
    requires leaks != [] && IsHit(leaks[0], suffix)
    requires ParseInt(ParseRecord(leaks[0]).value.1) == Some(n)
    ensures Scan(leaks, suffix) == Leaked(n)
  {
  }

  /**
   * Found with count n exactly when some line is the first record for the
   * suffix (compared case-sensitively), every line before it is a
   * well-formed record for another suffix, and its count reads as n.
   */
  lemma ScanLeakedIff(leaks: seq<string>, suffix: string, n: int)
    ensures Scan(leaks, suffix) == Leaked(n) <==> exists i: nat :: FirstHitAt(leaks, suffix, i, n)
  {
    if Scan(leaks, suffix) == Leaked(n) {
      var i := ScanLeakedWitness(leaks, suffix, n);
    }
    if i: nat :| FirstHitAt(leaks, suffix, i, n) {
      ScanOfFirstHit(leaks, suffix, i, n);
    }
  }

  /** Line `i` stops the scan with an exception: an earlier line would have stopped it otherwise. */
  predicate FirstFaultAt(leaks: seq<string>, suffix: string, i: nat) {
    && i < |leaks| && MissesBefore(leaks, suffix, i)
    && (|| ParseRecord(leaks[i]).None?
        || (IsHit(leaks[i], suffix) && ParseInt(ParseRecord(leaks[i]).value.1).None?))
  }

  lemma FirstFaultShift(leaks: seq<string>, suffix: string, i: nat)
    requires leaks != [] && IsMiss(leaks[0], suffix)
    ensures FirstFaultAt(leaks, suffix, i + 1) <==> FirstFaultAt(leaks[1..], suffix, i)
  {
    var tail := leaks[1..];
    assert forall j :: 0 <= j < |tail| ==> tail[j] == leaks[j + 1];
    if i + 1 < |leaks| {
      assert MissesBefore(leaks, suffix, i + 1) <==> MissesBefore(tail, suffix, i) by {
        if MissesBefore(tail, suffix, i) {
          forall j | 0 <= j < i + 1 ensures IsMiss(leaks[j], suffix) {
            if j > 0 { assert leaks[j] == tail[j - 1]; }
          }
        }
      }
    }
  }

  /**
   * The source raises exactly when, before any record for the suffix, a line
   * is not two ':'-separated fields, or the first record for the suffix has
   * a count that is not an integer.
   */
  lemma {:induction false} ScanRaisedIff(leaks: seq<string>, suffix: string)
    ensures Scan(leaks, suffix).Raised? <==> exists i: nat :: FirstFaultAt(leaks, suffix, i)
  {
    if leaks != [] {
      if IsMiss(leaks[0], suffix) {
        ScanRaisedIff(leaks[1..], suffix);
        if k: nat :| FirstFaultAt(leaks[1..], suffix, k) {
          FirstFaultShift(leaks, suffix, k);
        }
        if i: nat :| FirstFaultAt(leaks, suffix, i) {
          assert i > 0;
          FirstFaultShift(leaks, suffix, i - 1);
        }
      } else {
        if Scan(leaks, suffix).Raised? {
          assert FirstFaultAt(leaks, suffix, 0);
        }
        if i: nat :| FirstFaultAt(leaks, suffix, i) {
          assert i == 0;
        }
      }
    }
  }

  /** A line before the first hit that is not a record of two fields makes the source raise. */
  lemma MalformedLineRaises(suffix: string)
    ensures Scan(SplitLines("\n"), suffix) == Raised(UnpackError(""))
  {
    assert LineEnd("\n") == 0;
    assert SplitLines("\n") == [""];
    assert Split("", ':') == [""];
  }

  /**
   * check_pwned with the malformed-response case reported as a failed check
   * rather than raised: the outcome is always one of the three tuples.
   */
  method CheckPwnedGuarded(sha1: string, get: string -> Response) returns (r: PwnedResult)
    ensures !r.Raised?
    ensures get(RangeUrl(SplitHash(sha1).0)) == RequestFailed ==> r == ApiError
    ensures get(RangeUrl(SplitHash(sha1).0)).Ok? ==>
      var scanned := Scan(SplitLines(get(RangeUrl(SplitHash(sha1).0)).text), SplitHash(sha1).1);
      r == if scanned.Raised? then ApiError else scanned
    ensures r == NotLeaked ==>
      var lines := SplitLines(get(RangeUrl(SplitHash(sha1).0)).text);
      MissesBefore(lines, SplitHash(sha1).1, |lines|)
  {
    r := CheckPwned(sha1, get);
    if r.Raised? {
      r := ApiError;
    }
    var response := get(RangeUrl(SplitHash(sha1).0));
    if response.Ok? {
      ScanNotLeakedIff(SplitLines(response.text), SplitHash(sha1).1);
    }
  }

  /** One record of a range response: "SUFFIX:COUNT". */
  function RecordLine(record: (string, nat)): string {
    record.0 + ":" + ShowNat(record.1)
  }

  function RecordLines(records: seq<(string, nat)>): (lines: seq<string>)
    ensures |lines| == |records|
    ensures forall i :: 0 <= i < |records| ==> lines[i] == RecordLine(records[i])
  {
    if records == [] then [] else [RecordLine(records[0])] + RecordLines(records[1..])
  }

  /** A body in the service's format: every record on a line of its own ended by "\r\n". */
  function RangeBody(records: seq<(string, nat)>): string {
    Terminated(RecordLines(records), "\r\n")
  }

  /** The count of the first record for the suffix. */
  function FirstCount(records: seq<(string, nat)>, suffix: string): Option<nat> {
    if records == [] then None
    else if records[0].0 == suffix then Some(records[0].1)
    else FirstCount(records[1..], suffix)
  }

  /** Record suffixes hold neither ':' nor a line boundary (true of hexadecimal suffixes). */
  predicate PlainSuffixes(records: seq<(string, nat)>) {
    forall i :: 0 <= i < |records| ==> ':' !in records[i].0 && NoLineBreak(records[i].0)
  }

  /** Every count has at most MaxStrDigits digits, so `int()` converts it. */
  predicate ShortCounts(records: seq<(string, nat)>) {
    forall i :: 0 <= i < |records| ==> |ShowNat(records[i].1)| <= MaxStrDigits
  }

  lemma ParseRecordLine(record: (string, nat))
    requires ':' !in record.0
    ensures ParseRecord(RecordLine(record)) == Some((record.0, ShowNat(record.1)))
  {
    var fields := [record.0, ShowNat(record.1)];
    assert ':' !in fields[1] by {
      assert forall j :: 0 <= j < |fields[1]| ==> IsDigitChar(fields[1][j]);
    }
    assert Join(fields, ':') == RecordLine(record) by {
      assert fields[1..] == [ShowNat(record.1)];
    }
    SplitJoin(fields, ':');
  }

  lemma RecordLineHasNoBreak(record: (string, nat))
    requires NoLineBreak(record.0)
    ensures NoLineBreak(RecordLine(record))
  {
    var line := RecordLine(record);
    var digits := ShowNat(record.1);
    forall j | 0 <= j < |line| ensures !IsLineBreak(line[j]) {
      if j > |record.0| {
        assert line[j] == digits[j - |record.0| - 1];
        assert IsDigitChar(digits[j - |record.0| - 1]);
      }
    }
  }

  lemma {:induction false} ScanRecordLines(records: seq<(string, nat)>, suffix: string)
    requires PlainSuffixes(records) && ShortCounts(records)
    ensures Scan(RecordLines(records), suffix)
         == match FirstCount(records, suffix) case Some(n) => Leaked(n) case None => NotLeaked
  {
    if records != [] {
      var lines := RecordLines(records);
      ParseRecordLine(records[0]);
      ParseShowNat(records[0].1);
      assert lines[1..] == RecordLines(records[1..]);
      assert PlainSuffixes(records[1..]) && ShortCounts(records[1..]) by {
        assert forall i :: 0 <= i < |records[1..]| ==> records[1..][i] == records[i + 1];
      }
      ScanRecordLines(records[1..], suffix);
    }
  }

  /**
   * For a well-formed response body the scan finds the count of the first
   * record for the suffix, and reports not found when there is none.
   */
  lemma ScanOfRangeBody(records: seq<(string, nat)>, suffix: string)
    requires PlainSuffixes(records) && ShortCounts(records)
    ensures Scan(SplitLines(RangeBody(records)), suffix)
         == match FirstCount(records, suffix) case Some(n) => Leaked(n) case None => NotLeaked
  {
    var lines := RecordLines(records);
    forall k | 0 <= k < |lines| ensures NoLineBreak(lines[k]) {
      RecordLineHasNoBreak(records[k]);
    }
    SplitLinesOfTerminated(lines, "\r\n", "");
    var body := Terminated(lines, "\r\n");
    assert body + "" == body;
    assert lines + [] == lines;
    assert SplitLines(RangeBody(records)) == lines;
    ScanRecordLines(records, suffix);
  }
}
