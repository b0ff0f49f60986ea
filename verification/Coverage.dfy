/** The coverage bitmaps of the fuzzer: has_new_bits() and what it leaves of the virgin map. The
    loop works in 64-bit words; the specifications are bytewise. */
module Coverage {
  import opened Bytes
  import opened Bits

  // ------------------------------------------------------------ bytewise specifications

  ghost predicate HitsAt(cur: seq<byte>, vir: seq<byte>, i: int)
    requires |cur| == |vir|
  {
    0 <= i < |cur| && And(vir[i], cur[i]) != 0
  }

  ghost predicate PristineHitAt(cur: seq<byte>, vir: seq<byte>, i: int)
    requires |cur| == |vir|
  {
    0 <= i < |cur| && cur[i] != 0 && vir[i] == 0xff
  }

  // 2: a tuple never seen before; 1: only a new hit count for a known tuple; 0: nothing new.
  ghost function Novelty(cur: seq<byte>, vir: seq<byte>): nat
    requires |cur| == |vir|
  {
    if exists i :: PristineHitAt(cur, vir, i) then 2
    else if exists i :: HitsAt(cur, vir, i) then 1
    else 0
  }

  // The virgin map less the bits of the trace.
  function Cleared(cur: seq<byte>, vir: seq<byte>): (v: seq<byte>)
    requires |cur| == |vir|
    ensures |v| == |vir|
  {
    AndNotBytes(vir, cur)
  }

  lemma {:induction false} AndOnes(c: nat, ones: nat)
    requires c <= ones && (ones + 1 == 256 || ones + 1 == 128 || ones + 1 == 64 || ones + 1 == 32
                           || ones + 1 == 16 || ones + 1 == 8 || ones + 1 == 4 || ones + 1 == 2 || ones == 0)
    ensures And(ones, c) == c
    decreases ones
  {
    if c != 0 {
      AndOnes(c / 2, ones / 2);
    }
  }

  lemma PristineIsHit(cur: seq<byte>, vir: seq<byte>, i: int)
    requires |cur| == |vir| && PristineHitAt(cur, vir, i)
    ensures HitsAt(cur, vir, i)
  {
    AndOnes(cur[i], 255);
  }

  // Nothing is new exactly when clearing changes nothing.
  lemma NoveltyClears(cur: seq<byte>, vir: seq<byte>)
    requires |cur| == |vir|
    ensures Novelty(cur, vir) == 0 <==> forall i :: !HitsAt(cur, vir, i)
    ensures Novelty(cur, vir) == 0 <==> Cleared(cur, vir) == vir
  {
    forall i | 0 <= i < |cur|
      ensures Cleared(cur, vir)[i] == vir[i] <==> !HitsAt(cur, vir, i)
    {
      AndNotIsRest(vir[i], cur[i]);
    }
    if i :| PristineHitAt(cur, vir, i) {
      PristineIsHit(cur, vir, i);
    }
    if i :| HitsAt(cur, vir, i) {
      assert Cleared(cur, vir)[i] != vir[i];
    }
  }

  // The verdict on a map is the larger of the verdicts on its two parts.
  lemma NoveltySplit(c: seq<byte>, v: seq<byte>, p: nat)
    requires |c| == |v| && p <= |c|
    ensures Novelty(c, v) == var a, b := Novelty(c[..p], v[..p]), Novelty(c[p..], v[p..]); if b > a then b else a
  {
    var c1, v1, c2, v2 := c[..p], v[..p], c[p..], v[p..];
    forall i | 0 <= i < p
      ensures PristineHitAt(c, v, i) <==> PristineHitAt(c1, v1, i)
      ensures HitsAt(c, v, i) <==> HitsAt(c1, v1, i)
    {
    }
    forall i | p <= i < |c|
      ensures PristineHitAt(c, v, i) <==> PristineHitAt(c2, v2, i - p)
      ensures HitsAt(c, v, i) <==> HitsAt(c2, v2, i - p)
    {
    }
    if i :| PristineHitAt(c2, v2, i) {
      assert PristineHitAt(c, v, p + i);
    }
    if i :| HitsAt(c2, v2, i) {
      assert HitsAt(c, v, p + i);
    }
  }

  // ------------------------------------------------------------ one word

  predicate AnyPristineByte(cur: seq<byte>, vir: seq<byte>)
    requires |cur| == |vir| == 8
  {
    || (cur[0] != 0 && vir[0] == 0xff) || (cur[1] != 0 && vir[1] == 0xff)
    || (cur[2] != 0 && vir[2] == 0xff) || (cur[3] != 0 && vir[3] == 0xff)
    || (cur[4] != 0 && vir[4] == 0xff) || (cur[5] != 0 && vir[5] == 0xff)
    || (cur[6] != 0 && vir[6] == 0xff) || (cur[7] != 0 && vir[7] == 0xff)
  }

  lemma PristineBytes(cur: seq<byte>, vir: seq<byte>)
    requires |cur| == |vir| == 8
    ensures AnyPristineByte(cur, vir) <==> Novelty(cur, vir) == 2
  {
    if AnyPristineByte(cur, vir) {
      var k := if cur[0] != 0 && vir[0] == 0xff then 0 else if cur[1] != 0 && vir[1] == 0xff then 1
               else if cur[2] != 0 && vir[2] == 0xff then 2 else if cur[3] != 0 && vir[3] == 0xff then 3
               else if cur[4] != 0 && vir[4] == 0xff then 4 else if cur[5] != 0 && vir[5] == 0xff then 5
               else if cur[6] != 0 && vir[6] == 0xff then 6 else 7;
      assert PristineHitAt(cur, vir, k);
    }
  }

  lemma WordsMeet(cur: seq<byte>, vir: seq<byte>)
    requires |cur| == |vir|
    ensures WordAnd(Word(vir), Word(cur)) != 0 <==> Novelty(cur, vir) != 0
  {
    WordAndBytes(vir, cur);
    WordZero(AndBytes(vir, cur));
    NoveltyClears(cur, vir);
    assert forall i :: HitsAt(cur, vir, i) <==> 0 <= i < |cur| && AndBytes(vir, cur)[i] != 0;
  }

  // ------------------------------------------------------------ has_new_bits

  class Maps {
    const traceBits: array<byte>    // the trace, then the distance sum and the distance count
    const virginBits: array<byte>
    var bitmapChanged: bool
    var curDistance: real

    ghost predicate Valid() {
      traceBits.Length == virginBits.Length + 16 && virginBits.Length % 8 == 0 && traceBits != virginBits
    }

    // virginMap is virginBits, or one of the maps kept for crashes and for timeouts.
    method HasNewBits(virginMap: array<byte>) returns (ret: nat)
      requires Valid() && virginMap.Length == virginBits.Length && virginMap != traceBits
      modifies this, virginMap
      ensures ret == Novelty(traceBits[..virginMap.Length], old(virginMap[..]))
      ensures virginMap[..] == Cleared(traceBits[..virginMap.Length], old(virginMap[..]))
      ensures bitmapChanged == (old(bitmapChanged) || (ret != 0 && virginMap == virginBits))
      ensures IsAverage(traceBits[virginMap.Length..], curDistance)
    {
      DistanceIs(traceBits[virginMap.Length..]);
      curDistance := Distance(traceBits[virginMap.Length..]);
      ret := ScanWords(virginMap);
      if ret != 0 && virginMap == virginBits {
        bitmapChanged := true;
      }
    }

    method ScanWords(virginMap: array<byte>) returns (ret: nat)
      requires Valid() && virginMap.Length == virginBits.Length && virginMap != traceBits
      modifies virginMap
      ensures ret == Novelty(traceBits[..virginMap.Length], old(virginMap[..]))
      ensures virginMap[..] == Cleared(traceBits[..virginMap.Length], old(virginMap[..]))
    {
      var n := virginMap.Length;
      ghost var cur, vir := traceBits[..n], virginMap[..];
      ret := 0;
      for i := 0 to n / 8
        invariant traceBits[..n] == cur && Scanned(cur, vir, 8 * i, virginMap[..], ret)
        modifies virginMap
      {
        ghost var before, found := virginMap[..], ret;
        ret := ScanWord(virginMap, 8 * i, ret);
        ScanStep(cur, vir, 8 * i, before, found, virginMap[..], ret);
      }
      ScannedAll(cur, vir, virginMap[..], ret);
    }

    // The body of the loop on the word at p.
    method ScanWord(virginMap: array<byte>, p: nat, found: nat) returns (ret: nat)
      requires Valid() && virginMap.Length == virginBits.Length && virginMap != traceBits
      requires p + 8 <= virginMap.Length && found <= 2
      modifies virginMap
      ensures WordScanned(traceBits[..virginMap.Length], p, old(virginMap[..]), found, virginMap[..], ret)
    {
      ret := found;
      ghost var cur, vir, before := traceBits[p..p + 8], virginMap[p..p + 8], virginMap[..];
      assert cur == traceBits[..virginMap.Length][p..p + 8] && vir == before[p..p + 8];
      var current, virgin := Word(traceBits[p..p + 8]), Word(virginMap[p..p + 8]);
      WordsMeet(cur, vir);
      if current != 0 && WordAnd(virgin, current) != 0 {
        if ret < 2 {
          PristineBytes(cur, vir);
          if AnyPristineByte(traceBits[p..p + 8], virginMap[p..p + 8]) {
            ret := 2;
          } else {
            ret := 1;
          }
        }
        WordAndNotBytes(vir, cur);
        BytesOfWord(Cleared(cur, vir));
        assert virginMap[..p] == before[..p] && virginMap[p + 8..] == before[p + 8..];
        Store(virginMap, p, WordAndNot(virgin, current), 8);
      } else {
        assert WordAnd(virgin, current) == 0;
        NoveltyClears(cur, vir);
        assert before == before[..p] + vir + before[p + 8..];
      }
    }
  }

  // The average distance of the blocks hit, from the last 16 bytes of the trace; none hit is -1.
  function Distance(tail: seq<byte>): real
    requires |tail| == 16
  {
    var sum, count := Word(tail[..8]), Word(tail[8..]);
    if count > 0 then sum as real / count as real else -1.0
  }

  // The sum is in the first word and the number in the second; with a number other than zero, the
  // average times the number is the sum.
  ghost predicate IsAverage(tail: seq<byte>, d: real)
    requires |tail| == 16
  {
    forall k | SeeAverage(k) ::
      var sum, count := Word(tail[..8]), Word(tail[8..]);
      if count == 0 then d == -1.0 else d * count as real == sum as real
  }

  predicate SeeAverage(k: int) { k == 0 }

  lemma DistanceIs(tail: seq<byte>)
    requires |tail| == 16
    ensures IsAverage(tail, Distance(tail))
  {
  }

  // The state of the scan when p bytes are done.
  ghost predicate Scanned(cur: seq<byte>, vir: seq<byte>, p: nat, m: seq<byte>, ret: nat)
    requires |cur| == |vir| && p <= |cur|
  {
    && m == Cleared(cur[..p], vir[..p]) + vir[p..]
    && ret == Novelty(cur[..p], vir[..p])
  }

  // What one turn of the loop does to the map and to the verdict.
  ghost predicate WordScanned(cur: seq<byte>, p: nat, m: seq<byte>, found: nat, after: seq<byte>, ret: nat)
    requires |cur| == |m| && p + 8 <= |cur|
  {
    && after == m[..p] + Cleared(cur[p..p + 8], m[p..p + 8]) + m[p + 8..]
    && ret == var n := Novelty(cur[p..p + 8], m[p..p + 8]); if n > found then n else found
  }

  lemma ScanStep(cur: seq<byte>, vir: seq<byte>, p: nat, m: seq<byte>, found: nat, after: seq<byte>, ret: nat)
    requires |cur| == |vir| && p + 8 <= |cur|
    requires Scanned(cur, vir, p, m, found) && WordScanned(cur, p, m, found, after, ret)
    ensures Scanned(cur, vir, p + 8, after, ret)
  {
    var c, v := cur[..p + 8], vir[..p + 8];
    NoveltySplit(c, v, p);
    assert m[p..p + 8] == vir[p..p + 8];
    assert c[..p] == cur[..p] && v[..p] == vir[..p];
    assert c[p..] == cur[p..p + 8] && v[p..] == vir[p..p + 8];
  }

  lemma ScannedAll(cur: seq<byte>, vir: seq<byte>, m: seq<byte>, ret: nat)
    requires |cur| == |vir| && Scanned(cur, vir, |cur|, m, ret)
    ensures m == Cleared(cur, vir) && ret == Novelty(cur, vir)
  {
    assert cur[..|cur|] == cur && vir[..|cur|] == vir;
  }
}
