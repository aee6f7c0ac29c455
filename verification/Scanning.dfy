// Runs of octets: what the scanners of src/http.c and src/config.c skip over.

module Scanning {
  import opened Bytes

  /** The end of the run of octets matching `x` that starts at `p`: where a `SKIP(x)` leaves the pointer. */
  function SkipTo(s: seq<byte>, p: nat, end: nat, x: byte -> bool): (r: nat)
    requires p <= end <= |s|
    ensures p <= r <= end
    ensures forall i :: p <= i < r ==> x(s[i])
    ensures r < end ==> !x(s[r])
    decreases end - p
  {
    if p < end && x(s[p]) then SkipTo(s, p + 1, end, x) else p
  }

  /** `SKIP(x)`. */
  method Skip(s: seq<byte>, p: nat, end: nat, x: byte -> bool) returns (r: nat)
    requires p <= end <= |s|
    ensures r == SkipTo(s, p, end, x)
  {
    r := p;
    while r < end && x(s[r])
      invariant p <= r <= end && SkipTo(s, r, end, x) == SkipTo(s, p, end, x)
    {
      r := r + 1;
    }
  }

  /** The skip ends after exactly the run of matching octets. */
  lemma {:induction false} SkipRun(s: seq<byte>, p: nat, end: nat, x: byte -> bool, r: nat)
    requires p <= r <= end <= |s|
    requires forall i :: p <= i < r ==> x(s[i])
    requires r == end || !x(s[r])
    ensures SkipTo(s, p, end, x) == r
    decreases r - p
  {
    if p < r {
      SkipRun(s, p + 1, end, x, r);
    }
  }

  /** Reading past one part of a text. */
  lemma Peel(s: seq<byte>, i: nat, part: seq<byte>, rest: seq<byte>)
    requires i <= |s| && s[i..] == part + rest
    ensures i + |part| <= |s| && s[i..i + |part|] == part && s[i + |part|..] == rest
    ensures forall k :: i <= k < i + |part| ==> s[k] == part[k - i]
    ensures rest != [] ==> i + |part| < |s| && s[i + |part|] == rest[0]
  {
    assert |s[i..]| == |part| + |rest|;
    assert s[i..i + |part|] == s[i..][..|part|];
    assert s[i + |part|..] == s[i..][|part|..];
    forall k | i <= k < i + |part|
      ensures s[k] == part[k - i]
    {
      assert s[k] == s[i..][k - i];
    }
  }

  /** A scan delivers exactly a part made of matching octets before one that does not match. */
  lemma SkipPart(s: seq<byte>, i: nat, end: nat, part: seq<byte>, rest: seq<byte>, x: byte -> bool)
    requires i <= end <= |s| && s[i..] == part + rest
    requires forall k :: 0 <= k < |part| ==> x(part[k])
    requires i + |part| <= end
    requires i + |part| == end || (rest != [] && !x(rest[0]))
    ensures SkipTo(s, i, end, x) == i + |part| && s[i + |part|..] == rest && s[i..i + |part|] == part
  {
    Peel(s, i, part, rest);
    SkipRun(s, i, end, x, i + |part|);
  }
}
