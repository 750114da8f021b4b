/** The output buffer of vasnprintf.c: it grows by doubling, and each conversion is tried
    until its text fits. */
module PrintfOutput {
  import opened Arithmetic
  import opened Bits
  import opened Wrappers
  import opened XSize

  const INT_MAX: nat := 0x7fff_ffff

  /** The size after ENSURE_ALLOCATION. */
  function Grown(size: nat, needed: nat): nat {
    if needed <= size then size
    else Max(needed, if size > 0 then 2 * size else 12)
  }

  function Growth(size: nat, needed: nat): nat {
    if needed <= size then 0 else 1
  }

  /** How snprintf reports the length of its output: it knows "%n", and then returns that length or less;
      or it does not know "%n" and returns the length; or it does not know "%n" either, and returns -1 where
      the buffer is too small. */
  datatype Snprintf = KnowsN | ReturnsLength | ReturnsMinusOne

  /** How often the loop around snprintf makes the buffer grow for a text of some length. */
  function LoopGrowths(sn: Snprintf, size: nat, length: nat, count: nat): nat {
    if sn.ReturnsMinusOne? then BlindGrowths(size, length, count)
    else if length + count < size then 0 else if length + count < 2 * size then 1 else 2
  }

  /** The buffer when that loop ends. */
  function LoopSize(sn: Snprintf, size: nat, length: nat, count: nat): nat {
    if sn.ReturnsMinusOne? then BlindSize(size, length, count)
    else if length + count < size then size
    else if length + count < 2 * size then 2 * size
    else 2 * (length + count)
  }

  /** The same for an snprintf that does not say how much room it needs. */
  function BlindGrowths(size: nat, length: nat, count: nat): nat
    decreases length + count - size
  {
    if length + count < size then 0 else 1 + BlindGrowths(2 * size + 12, length, count)
  }

  function BlindSize(size: nat, length: nat, count: nat): (r: nat)
    ensures r >= size && r > length + count
    decreases length + count - size
  {
    if length + count < size then size else BlindSize(2 * size + 12, length, count)
  }

  class Output {
    var result: array<char>     // its length is the allocated size; NULL is the empty array
    var length: nat
    var borrowed: bool          // result is the caller's buffer, or NULL
    ghost var growths: nat

    ghost predicate Valid()
      reads this, result
    {
      length <= result.Length < SIZE_MAX
    }

    ghost function Text(): string
      reads this, result
      requires Valid()
    {
      result[..length]
    }

    /** Starts with the caller's buffer; an empty array stands for none. */
    constructor (resultbuf: array<char>)
      requires resultbuf.Length < SIZE_MAX
      ensures Valid() && result == resultbuf && Text() == "" && growths == 0
    {
      result, length, borrowed, growths := resultbuf, 0, true, 0;
    }

    /** ENSURE_ALLOCATION: a borrowed buffer is copied as far as it is used, an own one whole. */
    method Ensure(needed: SizeT) returns (ok: bool)
      requires Valid()
      modifies this`result, this`borrowed, this`growths
      ensures Valid() && (result == old(result) || fresh(result))
      ensures ok ==> Text() == old(Text()) && growths == old(growths) + Growth(old(result.Length), needed)
      ensures ok ==> result.Length == Grown(old(result.Length), needed)
      ensures !ok <==> needed > old(result.Length) && Grown(old(result.Length), needed) >= SIZE_MAX
    {
      ok := true;
      if needed > result.Length {
        var size: SizeT := if result.Length > 0 then Xtimes(result.Length, 2) else 12;
        if needed > size {
          size := needed;
        }
        if Xtimes(size, 1) == SIZE_MAX {
          return false;
        }
        var memory := new char[size];
        var kept := if borrowed then length else result.Length;
        forall i | 0 <= i < kept {
          memory[i] := result[i];
        }
        result, borrowed, growths := memory, false, growths + 1;
      }
    }

    /** Appends a text that fits. */
    method Put(s: string)
      requires Valid() && length + |s| <= result.Length
      modifies this`length, result
      ensures Valid() && result == old(result) && Text() == old(Text()) + s
    {
      forall i | 0 <= i < |s| {
        result[length + i] := s[i];
      }
      length := length + |s|;
    }

    /** Makes room for a text and appends it. */
    method Append(s: string) returns (ok: bool)
      requires Valid() && |s| <= SIZE_MAX
      modifies this, result
      ensures Valid() && (result == old(result) || fresh(result))
      ensures ok ==> Text() == old(Text()) + s
      ensures ok ==> result.Length == Grown(old(result.Length), old(length) + |s|)
      ensures !ok ==> Grown(old(result.Length), old(length) + |s|) >= SIZE_MAX
    {
      ok := Ensure(Xsum(length, |s|));
      if ok {
        Put(s);
      }
    }

    /** The final NUL, and the attempt to give back what is not needed. */
    method Finish() returns (ok: bool)
      requires Valid()
      modifies this, result
      ensures Valid() && (ok ==> Text() == old(Text()) && length < result.Length && result[length] == '\0')
      ensures ok <==> Grown(old(result.Length), old(length) + 1) < SIZE_MAX
    {
      ok := Ensure(Xsum(length, 1));
      if !ok {
        return;
      }
      result[length] := '\0';
      if !borrowed && length + 1 < result.Length {
        var memory := new char[length + 1];
        forall i | 0 <= i < length + 1 {
          memory[i] := result[i];
        }
        result := memory;
      }
    }

    /** snprintf into the rest of the buffer: as much of the text as fits, and a NUL. With a
        "%n" that it knows, it also stores the length of the whole text. */
    method CallSnprintf(text: string, sn: Snprintf, withN: bool) returns (retcount: int, count: int)
      requires Valid() && length < result.Length
      modifies result
      ensures Valid() && Text() == old(Text())
      ensures var fits := Min(|text|, result.Length - length - 1);
              result[length..length + fits] == text[..fits] && result[length + fits] == '\0'
      ensures count == if sn.KnowsN? && withN then |text| else -1
      ensures match sn
              case KnowsN => -1 <= retcount <= |text|
              case ReturnsLength => retcount == |text|
              case ReturnsMinusOne => retcount == if |text| < result.Length - length then |text| else -1
    {
      var fits := Min(|text|, result.Length - length - 1);
      ghost var was, piece := result[..], text[..fits];
      forall i | 0 <= i < fits {
        result[length + i] := text[i];
      }
      result[length + fits] := '\0';
      WrittenAt(was, result[..], length, piece);
      count := if sn.KnowsN? && withN then |text| else -1;
      retcount := if !sn.ReturnsLength? && |text| > fits then -1 else |text|;
    }

    /** The length of the text as the loop finds it out; -1 if it does not. */
    method ReportedLength(text: string, retcount: int, count: int, withN: bool) returns (again: bool, reported: int)
      requires count == |text| || count == -1
      requires if count == -1 then retcount == |text| || retcount == -1 || withN else -1 <= retcount <= |text|
      ensures again <==> count == -1 && withN
      ensures !again ==> reported == if count == -1 then retcount else |text|
    {
      again, reported := false, count;
      if reported >= 0 {
        if retcount > reported {
          reported := retcount;
        }
      } else if withN {
        again := true;
      } else {
        reported := retcount;
      }
    }

    /** Makes room after a text did not fit. */
    method Retry(sn: Snprintf, reported: nat, ghost start: nat) returns (ok: bool)
      requires Valid() && length == start < result.Length <= start + reported && reported <= INT_MAX
      requires !sn.ReturnsMinusOne?
      modifies this`result, this`borrowed, this`growths
      ensures Valid() && (result == old(result) || fresh(result))
      ensures ok ==> Text() == old(Text()) && result.Length > old(result.Length)
      ensures ok ==> SameEnd(sn, old(result.Length), old(growths), result.Length, growths, start, reported)
      ensures !ok ==> LoopSize(sn, old(result.Length), start, reported) >= SIZE_MAX
    {
      hide LoopSize, LoopGrowths, Grown;
      var n := Xmax(Xsum(length, reported), Xtimes(result.Length, 2));
      RetryGrows(sn, result.Length, start, reported);
      ok := Ensure(n);
    }

    /** Makes room after a text did not fit whose length is not known. */
    method RetryBlindly(ghost start: nat, ghost count: nat) returns (ok: bool)
      requires Valid() && length == start < result.Length <= start + count
      modifies this`result, this`borrowed, this`growths
      ensures Valid() && (result == old(result) || fresh(result))
      ensures ok ==> Text() == old(Text()) && result.Length > old(result.Length)
      ensures ok ==> SameEnd(ReturnsMinusOne, old(result.Length), old(growths), result.Length, growths, start, count)
      ensures !ok ==> LoopSize(ReturnsMinusOne, old(result.Length), start, count) >= SIZE_MAX
    {
      hide LoopSize, LoopGrowths, Grown;
      var biggerNeed := Xsum(Xtimes(result.Length, 2), 12);
      BlindRetryGrows(result.Length, start, count);
      ok := Ensure(biggerNeed);
    }

    /** One call of snprintf, and what the loop makes of what it reports. */
    method Attempt(text: string, sn: Snprintf, withN: bool) returns (again: bool, reported: int)
      requires Valid() && length < result.Length && (!withN ==> !sn.KnowsN?)
      modifies result
      ensures Valid() && Text() == old(Text())
      ensures again ==> withN && !sn.KnowsN?
      ensures !again ==> if sn.ReturnsMinusOne? && |text| >= result.Length - length then reported == -1
                         else reported == |text|
      ensures |text| < result.Length - length ==> result[length..length + |text|] == text
    {
      var retcount, count := CallSnprintf(text, sn, withN);
      // otherwise the code would abort
      assert !(count >= 0 && count < result.Length - length && result[length + count] != '\0');
      again, reported := ReportedLength(text, retcount, count, withN);
    }

    /** What snprintf has written becomes part of the text. */
    method Take(text: string)
      requires Valid() && |text| < result.Length - length && result[length..length + |text|] == text
      modifies this`length
      ensures Valid() && Text() == old(Text()) + text
    {
      length := length + |text|;
    }

    /** The loop around snprintf. */
    method ConvertLoop(text: string, sn: Snprintf) returns (ok: bool)
      requires Valid() && length < result.Length && |text| <= INT_MAX
      modifies this, result
      ensures Valid() && (result == old(result) || fresh(result))
      ensures ok ==> Text() == old(Text()) + text && result.Length == LoopSize(sn, old(result.Length), old(length), |text|)
      ensures ok ==> growths == old(growths) + LoopGrowths(sn, old(result.Length), old(length), |text|)
      ensures !ok ==> LoopSize(sn, old(result.Length), old(length), |text|) >= SIZE_MAX
    {
      hide LoopSize, LoopGrowths, Grown;
      ghost var before, start, size, base := Text(), length, result.Length, growths;
      var withN := true;
      ok := true;
      while true
        invariant Valid() && Text() == before && length == start < result.Length
        invariant result == old(result) || fresh(result)
        invariant SameEnd(sn, size, base, result.Length, growths, start, |text|)
        invariant !withN ==> !sn.KnowsN?
        decreases SIZE_MAX - result.Length, withN
      {
        var again, reported := Attempt(text, sn, withN);
        if again {
          withN := false;
        } else if reported < 0 {
          ok := RetryBlindly(start, |text|);
          if !ok {
            return;
          }
        } else if reported >= result.Length - length {
          ok := Retry(sn, reported, start);
          if !ok {
            return;
          }
        } else {
          LoopDone(sn, result.Length, start, reported);
          Take(text);
          return;
        }
      }
    }

    /** One conversion: room for a NUL first, and then the loop around snprintf. The text is
        appended whole, however often the loop makes the buffer grow. */
    method Convert(text: string, sn: Snprintf) returns (ok: bool)
      requires Valid() && |text| <= INT_MAX
      modifies this, result
      ensures Valid() && (result == old(result) || fresh(result))
      ensures ok ==> Text() == old(Text()) + text
      ensures ok ==> result.Length == ConvertSize(sn, old(result.Length), old(length), |text|)
      ensures ok ==> growths == old(growths) + ConvertGrowths(sn, old(result.Length), old(length), |text|)
      ensures !ok ==> ConvertSize(sn, old(result.Length), old(length), |text|) >= SIZE_MAX
    {
      hide LoopSize, LoopGrowths;
      LoopSizeGrows(sn, Grown(result.Length, length + 1), length, |text|);
      ok := Ensure(Xsum(length, 1));
      if ok {
        result[length] := '\0';
        ok := ConvertLoop(text, sn);
      }
    }
  }

  /** A text that was written behind a prefix that stayed. */
  lemma WrittenAt(was: seq<char>, now: seq<char>, at: nat, t: string)
    requires |now| == |was| && at + |t| <= |now|
    requires forall i :: 0 <= i < at ==> now[i] == was[i]
    requires forall i :: 0 <= i < |t| ==> now[at + i] == t[i]
    ensures now[..at] == was[..at] && now[at..at + |t|] == t
  {
  }

  /** Two sizes, each with the growths so far, from which the loop comes to the same end. */
  ghost predicate SameEnd(sn: Snprintf, size: nat, growths: nat, size': nat, growths': nat, length: nat, count: nat) {
    && LoopSize(sn, size', length, count) == LoopSize(sn, size, length, count)
    && growths' + LoopGrowths(sn, size', length, count) == growths + LoopGrowths(sn, size, length, count)
  }

  /** Buffer and growths of a whole conversion. */
  function ConvertSize(sn: Snprintf, size: nat, length: nat, count: nat): nat {
    LoopSize(sn, Grown(size, length + 1), length, count)
  }

  function ConvertGrowths(sn: Snprintf, size: nat, length: nat, count: nat): nat {
    Growth(size, length + 1) + LoopGrowths(sn, Grown(size, length + 1), length, count)
  }

  lemma LoopSizeGrows(sn: Snprintf, size: nat, length: nat, count: nat)
    ensures LoopSize(sn, size, length, count) >= size
  {
  }

  lemma LoopDone(sn: Snprintf, size: nat, length: nat, count: nat)
    requires length + count < size
    ensures LoopSize(sn, size, length, count) == size && LoopGrowths(sn, size, length, count) == 0
  {
  }

  /** One round of the loop takes one growth, and the end does not change. */
  lemma RetryGrows(sn: Snprintf, size: nat, start: nat, reported: nat)
    requires start < size <= start + reported && size < SIZE_MAX && !sn.ReturnsMinusOne?
    ensures var n := Min(Max(start + reported, 2 * size), SIZE_MAX);
            && n > size && Growth(size, n) == 1
            && (Grown(size, n) < SIZE_MAX ==>
                  && Grown(size, n) > size
                  && LoopSize(sn, Grown(size, n), start, reported) == LoopSize(sn, size, start, reported)
                  && LoopGrowths(sn, Grown(size, n), start, reported) + 1 == LoopGrowths(sn, size, start, reported))
            && (Grown(size, n) >= SIZE_MAX ==> LoopSize(sn, size, start, reported) >= SIZE_MAX)
  {
  }

  lemma BlindRetryGrows(size: nat, start: nat, count: nat)
    requires start < size <= start + count && size < SIZE_MAX
    ensures var n, sn := Min(Min(2 * size, SIZE_MAX) + 12, SIZE_MAX), ReturnsMinusOne;
            && n > size && Growth(size, n) == 1
            && (Grown(size, n) < SIZE_MAX ==>
                  && Grown(size, n) > size
                  && LoopSize(sn, Grown(size, n), start, count) == LoopSize(sn, size, start, count)
                  && LoopGrowths(sn, Grown(size, n), start, count) + 1 == LoopGrowths(sn, size, start, count))
            && (Grown(size, n) >= SIZE_MAX ==> LoopSize(sn, size, start, count) >= SIZE_MAX)
  {
  }

  /** With an snprintf that tells the length, a directive makes the buffer grow twice at most, and a third time only
      if there was no room for its NUL to begin with and the text needs twice the room made for it. */
  lemma AtMostThreeGrowths(sn: Snprintf, size: nat, length: nat, count: nat)
    requires length <= size
    ensures !sn.ReturnsMinusOne? ==>
              && ConvertGrowths(sn, size, length, count) <= 3
              && (ConvertGrowths(sn, size, length, count) == 3
                  <==> size <= length && length + count >= 2 * Grown(size, length + 1))
  {
  }

  /** An empty buffer and a text of 100 characters: 12, 100, 200. */
  lemma ThreeGrowths()
    ensures ConvertGrowths(KnowsN, 0, 0, 100) == 3 && ConvertSize(KnowsN, 0, 0, 100) == 200
  {
  }

  /** With one that does not, the k-th growth makes the buffer 2^k * (size + 12) - 12 long, and the loop ends with the
      first of these sizes that holds the text and its NUL. */
  lemma {:induction false} BlindGrowthsExact(size: nat, length: nat, count: nat)
    ensures var k := BlindGrowths(size, length, count);
            && BlindSize(size, length, count) == Pow2(k) * (size + 12) - 12
            && Pow2(k) * (size + 12) - 12 > length + count
            && (k > 0 ==> Pow2(k - 1) * (size + 12) - 12 <= length + count)
    decreases length + count - size
  {
    if length + count >= size {
      var k := BlindGrowths(2 * size + 12, length, count);
      BlindGrowthsExact(2 * size + 12, length, count);
      TwiceAsLong(k, size);
      if k > 0 { TwiceAsLong(k - 1, size); }
    }
  }

  lemma TwiceAsLong(k: nat, size: nat)
    ensures Pow2(k) * (2 * size + 12 + 12) == Pow2(k + 1) * (size + 12)
  {
    var p, m := Pow2(k), size + 12;
    assert Pow2(k + 1) == 2 * p;
    Doubles(p, m);
  }
}
