/** Bitmaps with first-fit search for a run of equal bits (lib/kernel/bitmap.c). */
module Bitmaps {
  import opened Common

  predicate RunAt(b: seq<bool>, start: nat, cnt: nat, value: bool) {
    start + cnt <= |b| && forall k :: start <= k < start + cnt ==> b[k] == value
  }

  /** The lowest position at or after `start` with cnt bits equal to value. */
  function FirstRun(b: seq<bool>, start: nat, cnt: nat, value: bool): (r: Option<nat>)
    ensures r.Some? ==> start <= r.value && RunAt(b, r.value, cnt, value)
    ensures forall i :: start <= i && (r.Some? ==> i < r.value) ==> !RunAt(b, i, cnt, value)
    decreases |b| - start
  {
    if start + cnt > |b| then None
    else if RunAt(b, start, cnt, value) then Some(start)
    else if start == |b| then None
    else FirstRun(b, start + 1, cnt, value)
  }

  function SetRange(b: seq<bool>, start: nat, cnt: nat, value: bool): (r: seq<bool>)
    requires start + cnt <= |b|
    ensures |r| == |b|
    ensures forall k :: 0 <= k < |b| ==> r[k] == if start <= k < start + cnt then value else b[k]
  {
    seq(|b|, k requires 0 <= k < |b| => if start <= k < start + cnt then value else b[k])
  }

  /** Handing a run out and taking it back restores the bitmap. */
  lemma FlipAndBack(b: seq<bool>, start: nat, cnt: nat, value: bool)
    requires RunAt(b, start, cnt, value)
    ensures SetRange(SetRange(b, start, cnt, !value), start, cnt, value) == b
  {
  }

  class Bitmap {
    var bits: seq<bool>

    constructor (bitCnt: nat)
      ensures bits == seq(bitCnt, i => false)
    {
      bits := seq(bitCnt, i => false);
    }

    method Contains(start: nat, cnt: nat, value: bool) returns (r: bool)
      requires start + cnt <= |bits|
      ensures r <==> exists k :: start <= k < start + cnt && bits[k] == value
    {
      for i := 0 to cnt
        invariant forall k :: start <= k < start + i ==> bits[k] != value
      {
        if bits[start + i] == value {
          return true;
        }
      }
      r := false;
    }

    /** `bitmap_all`. */
    method All(start: nat, cnt: nat) returns (r: bool)
      requires start + cnt <= |bits|
      ensures r <==> RunAt(bits, start, cnt, true)
    {
      var c := Contains(start, cnt, false);
      r := !c;
    }

    method SetMultiple(start: nat, cnt: nat, value: bool)
      requires start + cnt <= |bits|
      modifies this
      ensures bits == SetRange(old(bits), start, cnt, value)
    {
      for i := 0 to cnt
        invariant bits == SetRange(old(bits), start, i, value)
      {
        bits := bits[start + i := value];
      }
    }

    /** `bitmap_scan`: the first fit. */
    method Scan(start: nat, cnt: nat, value: bool) returns (r: Option<nat>)
      requires start <= |bits|
      ensures r == FirstRun(bits, start, cnt, value)
    {
      if cnt <= |bits| {
        var last := |bits| - cnt;
        var i := start;
        while i <= last
          invariant start <= i && (start <= last ==> i <= last + 1)
          invariant FirstRun(bits, start, cnt, value) == FirstRun(bits, i, cnt, value)
          decreases last + 1 - i
        {
          var c := Contains(i, cnt, !value);
          if !c {
            assert RunAt(bits, i, cnt, value);
            return Some(i);
          }
          assert !RunAt(bits, i, cnt, value);
          i := i + 1;
        }
      }
      r := None;
    }

    /** `bitmap_scan_and_flip`: the first fit, marked as taken. */
    method ScanAndFlip(start: nat, cnt: nat, value: bool) returns (r: Option<nat>)
      requires start <= |bits|
      modifies this
      ensures r == FirstRun(old(bits), start, cnt, value)
      ensures bits == if r.Some? then SetRange(old(bits), r.value, cnt, !value) else old(bits)
    {
      r := Scan(start, cnt, value);
      if r.Some? {
        SetMultiple(r.value, cnt, !value);
      }
    }
  }
}
