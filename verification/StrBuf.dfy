// The growable string buffer of src/strbuf.c: an in-place edited character array
// against a sequence, with its geometric growth policy.

module StrBuf {
  import opened Bits
  import opened Bytes

  const MIN_MARGIN := 32
  const SIZE_MULTIPLIER := 2
  const SUCCESS := 0
  const ERANGE := 34

  // ----- the buffer as a value -----

  datatype Edit = Insert(pos: nat, text: seq<byte>) | Append(tail: seq<byte>) | Delete(start: nat, count: nat)

  /** The text after an edit; a deletion that is out of range changes nothing. */
  function Edited(s: seq<byte>, e: Edit): seq<byte> {
    match e
    case Insert(pos, text) => var p := if pos > |s| then |s| else pos; s[..p] + text + s[p..]
    case Append(tail) => s + tail
    case Delete(start, count) => if start >= |s| || start + count > |s| then s else s[..start] + s[start + count..]
  }

  /** Contents, allocated size, octets copied by all reallocations, and the longest text held. */
  datatype State = State(text: seq<byte>, capacity: nat, copied: nat, peak: nat)

  function Initial(count: nat): State {
    State([], count, 0, 0)
  }

  /** The size `strbuf_realloc` settles on: doubled until the text and the margin fit. */
  function Grown(count: nat, newLen: nat): (r: nat)
    requires count > 0
    ensures r >= newLen + 1 + MIN_MARGIN && r >= count
    decreases newLen + 1 + MIN_MARGIN - count
  {
    if count < newLen + 1 + MIN_MARGIN then Grown(count * SIZE_MULTIPLIER, newLen) else count
  }

  function Apply(st: State, e: Edit): State
    requires st.capacity > 0
  {
    var text := Edited(st.text, e);
    var peak := if |text| > st.peak then |text| else st.peak;
    if |text| + 1 > st.capacity then State(text, Grown(st.capacity, |text|), st.copied + st.capacity, peak)
    else State(text, st.capacity, st.copied, peak)
  }

  function Run(count: nat, edits: seq<Edit>): (st: State)
    requires count > 0
    ensures st.capacity > 0
  {
    if edits == [] then Initial(count) else Apply(Run(count, edits[..|edits| - 1]), edits[|edits| - 1])
  }

  function EditAll(edits: seq<Edit>): seq<byte> {
    if edits == [] then [] else Edited(EditAll(edits[..|edits| - 1]), edits[|edits| - 1])
  }

  /** What every run of edits keeps. */
  ghost predicate Invariant(c0: nat, st: State, k: nat) {
    && |st.text| + 1 <= st.capacity
    && |st.text| <= st.peak
    && st.capacity == c0 * Pow2(k)
    && st.copied <= st.capacity - c0
    && (st.capacity == c0 || st.capacity < 2 * (st.peak + 33))
  }

  lemma {:induction false} GrowthDoubles(c0: nat, count: nat, k: nat, newLen: nat) returns (j: nat)
    requires count > 0 && count == c0 * Pow2(k)
    ensures k <= j && Grown(count, newLen) == c0 * Pow2(j)
    ensures newLen + 33 <= Grown(count, newLen)
    ensures if count < newLen + 33 then 2 * count <= Grown(count, newLen) < 2 * (newLen + 33)
            else Grown(count, newLen) == count
    decreases newLen + 1 + MIN_MARGIN - count
  {
    if count < newLen + 1 + MIN_MARGIN {
      assert count * SIZE_MULTIPLIER == c0 * Pow2(k + 1) by {
        assert c0 * (2 * Pow2(k)) == 2 * (c0 * Pow2(k));
      }
      j := GrowthDoubles(c0, count * SIZE_MULTIPLIER, k + 1, newLen);
    } else {
      j := k;
    }
  }

  lemma ApplyKeepsInvariant(c0: nat, st: State, k: nat, e: Edit) returns (j: nat)
    requires c0 > 0 && Invariant(c0, st, k)
    ensures Invariant(c0, Apply(st, e), j)
  {
    hide Edited, Pow2, Grown;
    var text := Edited(st.text, e);
    if |text| + 1 > st.capacity {
      j := GrowthDoubles(c0, st.capacity, k, |text|);
    } else {
      j := k;
    }
  }

  /**
   * Over any run of edits from an allocation of `c0`: the text is the edited
   * sequence and fits with its NUL, the capacity is c0 doubled some number of
   * times, all reallocations together copied less than the final capacity, and
   * the capacity stays within twice the peak need.
   */
  lemma {:induction false} RunInvariant(c0: nat, edits: seq<Edit>) returns (k: nat)
    requires c0 > 0
    ensures Run(c0, edits).text == EditAll(edits)
    ensures Invariant(c0, Run(c0, edits), k)
  {
    if edits == [] {
      k := 0;
      assert c0 * Pow2(0) == c0;
    } else {
      hide Apply, Edited;
      var before := edits[..|edits| - 1];
      var j := RunInvariant(c0, before);
      k := ApplyKeepsInvariant(c0, Run(c0, before), j, edits[|edits| - 1]);
      ApplyText(Run(c0, before), edits[|edits| - 1]);
    }
  }

  lemma ApplyText(st: State, e: Edit)
    requires st.capacity > 0
    ensures Apply(st, e).text == Edited(st.text, e)
  {
  }

  /** The peak is the length of the longest text so far. */
  lemma {:induction false} PeakIsLongest(c0: nat, edits: seq<Edit>) returns (k: nat)
    requires c0 > 0
    ensures forall i :: 0 <= i <= |edits| ==> |EditAll(edits[..i])| <= Run(c0, edits).peak
    ensures k <= |edits| && |EditAll(edits[..k])| == Run(c0, edits).peak
  {
    hide Edited, Grown;
    var all := RunInvariant(c0, edits);
    assert edits[..|edits|] == edits;
    if edits == [] {
      k := 0;
    } else {
      var before := edits[..|edits| - 1];
      k := PeakIsLongest(c0, before);
      forall i | 0 <= i <= |before|
        ensures edits[..i] == before[..i]
      {
      }
      var last := RunInvariant(c0, before);
      if |EditAll(edits)| > Run(c0, before).peak {
        k := |edits|;
      }
    }
  }

  lemma InsertedText(s: seq<byte>, pos: nat, text: seq<byte>)
    ensures var p := if pos > |s| then |s| else pos;
      Edited(s, Insert(pos, text)) == s[..p] + text + s[p..]
  {
  }

  // ----- the buffer in memory -----

  class StrBuf {
    var str: array<byte>
    var length: nat
    var maxCount: nat

    /** Octets copied by the reallocations so far, and the longest text so far. */
    ghost var copied: nat
    ghost var peak: nat

    ghost predicate Valid()
      reads this, str
    {
      && str.Length == maxCount
      && length + 1 <= maxCount
      && str[length] == 0
      && length <= peak
    }

    ghost function Text(): seq<byte>
      requires Valid()
      reads this, str
    {
      str[..length]
    }

    ghost function Abs(): State
      requires Valid()
      reads this, str
    {
      State(Text(), maxCount, copied, peak)
    }

    /** `strbuf_alloc`, which writes the NUL of the empty text. */
    constructor (count: nat)
      requires count >= 1
      ensures Valid() && fresh(str) && Abs() == Initial(count)
    {
      str := new byte[count];
      length := 0;
      maxCount := count;
      copied, peak := 0, 0;
      new;
      str[0] := 0;
    }

    /** `strbuf_realloc`: the old octets move to the new block, the rest is arbitrary. */
    method Realloc(newLen: nat)
      requires Valid()
      modifies this
      ensures length == old(length) && peak == old(peak)
      ensures maxCount == Grown(old(maxCount), newLen)
      ensures fresh(str) && str.Length == maxCount && str[..old(maxCount)] == old(str[..])
      ensures copied == old(copied) + old(maxCount)
    {
      var count := maxCount;
      while count < newLen + 1 + MIN_MARGIN
        invariant count >= maxCount && Grown(count, newLen) == Grown(maxCount, newLen)
        decreases newLen + 1 + MIN_MARGIN - count
      {
        count := count * SIZE_MULTIPLIER;
      }
      var block := new byte[count];
      forall i | 0 <= i < maxCount {
        block[i] := str[i];
      }
      copied := copied + maxCount;
      str := block;
      maxCount := count;
    }

    /**
     * `strbuf_insertn`. The first copy may overlap in the source; it is taken to
     * move the old tail as it was before the call.
     */
    method Insertn(pos: nat, text: seq<byte>) returns (error: int)
      requires Valid()
      modifies this, str
      ensures Valid() && (str == old(str) || fresh(str))
      ensures error == SUCCESS && Abs() == Apply(old(Abs()), Insert(pos, text))
    {
      hide Grown, Edited;
      var newLen := length + |text|;
      ghost var s := Text();
      if newLen + 1 > maxCount {
        Realloc(newLen);
        assert Text() == str[..maxCount][..length] == s;
      }
      var p := if pos > length then length else pos;
      InsertedText(s, pos, text);
      InsertFitting(p, text);
      error := SUCCESS;
    }

    /** `strbuf_insertn` once there is room. */
    method InsertFitting(p: nat, text: seq<byte>)
      requires Valid() && p <= length && length + |text| + 1 <= maxCount
      modifies this`length, this`peak, str
      ensures Valid() && Text() == old(Text()[..p]) + text + old(Text()[p..])
      ensures peak == if length > old(peak) then length else old(peak)
    {
      ghost var s := Text();
      assert s[..p] == str[..p] && s[p..] == str[p..length];
      OpenGap(p, text);
      length := length + |text|;
      ghost var t := str[..length];
      str[length] := 0;
      peak := if length > peak then length else peak;
      assert Text() == t;
    }

    /** The two copies of `strbuf_insertn`. */
    method OpenGap(p: nat, text: seq<byte>)
      requires p <= length && length + |text| < str.Length
      modifies str
      ensures str[..length + |text|] == old(str[..p]) + text + old(str[p..length])
    {
      forall i | p <= i < length {
        str[i + |text|] := str[i];
      }
      forall i | 0 <= i < |text| {
        str[p + i] := text[i];
      }
    }

    /** `strbuf_appendn` and `strbuf_append`. */
    method Append(text: seq<byte>) returns (error: int)
      requires Valid()
      modifies this, str
      ensures Valid() && (str == old(str) || fresh(str))
      ensures error == SUCCESS && Abs() == Apply(old(Abs()), Edit.Append(text))
      ensures Text() == old(Text()) + text
    {
      ghost var s := Text();
      error := Insertn(length, text);
      assert Edited(s, Insert(|s|, text)) == s + text;
    }

    /**
     * `strbuf_delete`. Out-of-range requests, and any request at the end of the text, are refused,
     * except that `start + count` is a `size_t`: when it wraps around, the check passes and the
     * text from the wrapped position on moves up to `start`. `overrun` tells that it then leaves
     * the block; the model stops there. The request is met exactly when nothing wraps around, or
     * `start` alone is out of range.
     */
    method Delete(start: uint64, count: uint64) returns (error: int, overrun: bool)
      requires Valid() && length < TWO_64
      modifies this, str
      ensures Valid() && str == old(str) && maxCount == old(maxCount) && copied == old(copied)
      ensures var from := (start + count) % TWO_64;
              if start >= old(length) || from > old(length)
              then error == ERANGE && !overrun && Abs() == old(Abs())
              else
                && error == SUCCESS
                && (overrun <==> start + (old(length) - from) >= maxCount)
                && (!overrun ==> Text() == old(Text())[..start] + old(Text())[from..])
      ensures start + count < TWO_64 ==> !overrun && Abs() == Apply(old(Abs()), Edit.Delete(start, count))
      ensures !overrun ==>
                (Text() == Edited(old(Text()), Edit.Delete(start, count)) <==> start + count < TWO_64 || start >= old(length))
    {
      hide Edited, Apply, Grown;
      ghost var st := Abs();
      DeletionOf(st, start, count);
      var from := (start + count) % TWO_64;
      overrun := false;
      if start >= length || from > length {
        return ERANGE, false;
      }
      var n := (length - start - count) % TWO_64;
      WrappedRest(length, start, count);
      if start + n >= maxCount {
        return SUCCESS, true;
      }
      MoveRest(start, from);
      error := SUCCESS;
    }

    /** `strbuf_delete` once its check has passed and the moved text fits. */
    method MoveRest(start: nat, from: nat)
      requires Valid() && start < length && from <= length && start + (length - from) < maxCount
      modifies this`length, this`peak, str
      ensures Valid() && Text() == old(Text()[..start]) + old(Text()[from..])
      ensures old(length) >= length ==> peak == old(peak)
    {
      ghost var s := Text();
      assert s[..start] == str[..start] && s[from..] == str[from..length];
      CloseGap(start, from, length - from);
      length := start + (length - from);
      ghost var t := str[..length];
      str[length] := 0;
      peak := if length > peak then length else peak;
      assert Text() == t;
    }

    /** The `memmove` of `strbuf_delete`. */
    method CloseGap(start: nat, from: nat, n: nat)
      requires from + n == length && start + n < str.Length && length < str.Length
      modifies str
      ensures str[..start + n] == old(str[..start]) + old(str[from..length])
    {
      forall i | 0 <= i < n {
        str[start + i] := str[from + i];
      }
    }
  }

  /** The edit a deletion asks for, and how it compares with what the wrapped position gives. */
  lemma DeletionOf(st: State, start: uint64, count: uint64)
    requires |st.text| < TWO_64 && |st.text| + 1 <= st.capacity && |st.text| <= st.peak
    ensures var e, from := Edit.Delete(start, count), (start + count) % TWO_64;
            && Apply(st, e) == st.(text := Edited(st.text, e))
            && (if start >= |st.text| || from > |st.text| then Edited(st.text, e) == st.text
                else (Edited(st.text, e) == st.text[..start] + st.text[from..] <==> start + count < TWO_64))
  {
  }

  /** What follows the deleted range, counted in `size_t`. */
  lemma WrappedRest(length: uint64, start: uint64, count: uint64)
    requires start < length && (start + count) % TWO_64 <= length
    ensures var from := (start + count) % TWO_64;
            && (length - start - count) % TWO_64 == length - from
            && from == (if start + count < TWO_64 then start + count else start + count - TWO_64)
  {
  }
}
