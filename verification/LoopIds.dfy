/** Assignment loop ids `autopilot__{job_id}__{uuid}`: how they are built and parsed back. */
module LoopIds {
  import opened Prelude

  type LoopId = string

  const PREFIX: string := "autopilot__"
  const SEPARATOR: string := "__"

  /** The characters Python's `str.strip` removes. */
  predicate IsSpace(c: char) {
    c in " \t\n\U{0B}\U{0C}\r\U{1C}\U{1D}\U{1E}\U{1F}\U{85}\U{A0}\U{1680}\U{2028}\U{2029}\U{202F}\U{205F}\U{3000}"
    || '\U{2000}' <= c <= '\U{200A}'
  }

  function StripLeft(s: string): string {
    if s != "" && IsSpace(s[0]) then StripLeft(s[1..]) else s
  }

  function StripRight(s: string): string {
    if s != "" && IsSpace(s[|s| - 1]) then StripRight(s[..|s| - 1]) else s
  }

  function Strip(s: string): string {
    StripRight(StripLeft(s))
  }

  /** Stripping removes nothing exactly when the string has no blank at either end. */
  lemma {:induction false} StripIsIdentityIff(s: string)
    ensures Strip(s) == s <==> s == "" || (!IsSpace(s[0]) && !IsSpace(s[|s| - 1]))
  {
    StripShortens(s);
    StripShortens(StripLeft(s));
    if s != "" && IsSpace(s[0]) {
      StripShortens(s[1..]);
    }
    if s != "" && !IsSpace(s[0]) && IsSpace(s[|s| - 1]) {
      StripShortens(s[..|s| - 1]);
    }
  }

  lemma {:induction false} StripShortens(s: string)
    ensures |StripLeft(s)| <= |s| && |StripRight(s)| <= |s|
    decreases |s|
  {
    if s != "" {
      StripShortens(s[1..]);
      StripShortens(s[..|s| - 1]);
    }
  }

  /** None stands for the ValueError raised for a blank job id. */
  function Allocate(jobId: string, suffix: string): Option<LoopId> {
    var clean := Strip(jobId);
    if clean == "" then None else Some(PREFIX + clean + SEPARATOR + suffix)
  }

  predicate SeparatorAt(s: string, i: int) {
    0 <= i && i + 2 <= |s| && s[i] == '_' && s[i + 1] == '_'
  }

  /** Position of the first separator. */
  function FindSeparator(s: string): (r: Option<nat>)
    ensures r.Some? ==> SeparatorAt(s, r.value) && forall k :: 0 <= k < r.value ==> !SeparatorAt(s, k)
    ensures r.None? ==> forall k :: !SeparatorAt(s, k)
  {
    if |s| < 2 then None
    else if SeparatorAt(s, 0) then Some(0)
    else
      var rest := FindSeparator(s[1..]);
      assert forall k :: k >= 1 ==> (SeparatorAt(s, k) <==> SeparatorAt(s[1..], k - 1));
      match rest
      case None => None
      case Some(k) => Some(k + 1)
  }

  function Parse(loopId: LoopId): Option<string> {
    if !(PREFIX <= loopId) then None
    else
      var rest := loopId[|PREFIX|..];
      match FindSeparator(rest)
      case None => None
      case Some(k) => if k == 0 then None else Some(rest[..k])
  }

  /** A job id that survives the round trip: no double underscore, no trailing underscore. */
  predicate Parseable(clean: string) {
    (forall k :: 0 <= k < |clean| ==> !SeparatorAt(clean, k))
    && (clean != "" ==> clean[|clean| - 1] != '_')
  }

  /** Parsing an allocated loop id gives back the stripped job id exactly for parseable ids. */
  lemma RoundTrip(jobId: string, suffix: string)
    requires Allocate(jobId, suffix).Some?
    ensures Parse(Allocate(jobId, suffix).value) == Some(Strip(jobId)) <==> Parseable(Strip(jobId))
  {
    var clean := Strip(jobId);
    var loopId := Allocate(jobId, suffix).value;
    var rest := clean + SEPARATOR + suffix;
    assert loopId == PREFIX + rest;
    assert loopId[|PREFIX|..] == rest;
    var n := |clean|;
    assert SeparatorAt(rest, n);
    var k := FindSeparator(rest).value;
    assert forall i :: 0 <= i && i + 1 < n ==> (SeparatorAt(rest, i) <==> SeparatorAt(clean, i));
    assert SeparatorAt(rest, n - 1) <==> clean[n - 1] == '_';
    assert rest[..n] == clean;
    if Parseable(clean) {
      assert k == n;
    } else {
      assert k < n;
      assert |rest[..k]| != n;
    }
  }

  /** Whatever the job id, the parsed id is a prefix of the stripped one (or nothing at all). */
  lemma ParsedIdIsPrefix(jobId: string, suffix: string)
    requires Allocate(jobId, suffix).Some?
    ensures var p := Parse(Allocate(jobId, suffix).value); p.Some? ==> p.value <= Strip(jobId)
  {
    var clean := Strip(jobId);
    var loopId := Allocate(jobId, suffix).value;
    var rest := clean + SEPARATOR + suffix;
    assert loopId == PREFIX + rest;
    assert loopId[|PREFIX|..] == rest;
    assert SeparatorAt(rest, |clean|);
    var k := FindSeparator(rest).value;
    assert k <= |clean|;
    assert rest[..k] == clean[..k];
  }

  /** Stripping cuts off all blanks at both ends and nothing else. */
  lemma {:induction false} StripMeans(s: string) returns (i: nat, j: nat)
    ensures i <= j <= |s| && Strip(s) == s[i..j]
    ensures (forall k :: 0 <= k < i ==> IsSpace(s[k])) && (forall k :: j <= k < |s| ==> IsSpace(s[k]))
    ensures i < j ==> !IsSpace(s[i]) && !IsSpace(s[j - 1])
  {
    i := LeftMeans(s);
    j := RightMeans(s[i..]);
    j := i + j;
    assert s[i..][..j - i] == s[i..j];
    forall k | j <= k < |s|
      ensures IsSpace(s[k])
    {
      assert s[k] == s[i..][k - i];
    }
  }

  lemma {:induction false} LeftMeans(s: string) returns (i: nat)
    ensures i <= |s| && StripLeft(s) == s[i..] && (i < |s| ==> !IsSpace(s[i]))
    ensures forall k :: 0 <= k < i ==> IsSpace(s[k])
    decreases |s|
  {
    if s == "" || !IsSpace(s[0]) {
      return 0;
    }
    i := LeftMeans(s[1..]);
    assert forall k :: 0 < k < |s| ==> s[k] == s[1..][k - 1];
    i := i + 1;
  }

  lemma {:induction false} RightMeans(s: string) returns (j: nat)
    ensures j <= |s| && StripRight(s) == s[..j] && (j > 0 ==> !IsSpace(s[j - 1]))
    ensures forall k :: j <= k < |s| ==> IsSpace(s[k])
    decreases |s|
  {
    hide IsSpace;
    if s == "" || !IsSpace(s[|s| - 1]) {
      assert s == s[..|s|];
      return |s|;
    }
    var init := s[..|s| - 1];
    j := RightMeans(init);
    assert init[..j] == s[..j] && forall k :: 0 <= k < |init| ==> init[k] == s[k];
  }

  /** A loop id spelled out; a blank job id has none. */
  lemma LoopIdSpelled(jobId: string, suffix: string)
    ensures Strip(jobId) != "" ==> Allocate(jobId, suffix) == Some("autopilot__" + Strip(jobId) + "__" + suffix)
    ensures Strip(jobId) == "" ==> Allocate(jobId, suffix) == None
  {
  }
}
