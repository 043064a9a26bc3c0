/**
 * The read path's balanced select tree (`RAMUX`): 2^k cells reduced to one
 * by k rounds of pairwise CMUX, selector j consumed in round j, all inside
 * a half-size scratch array addressed with power-of-two strides.
 */
module SelectTree {
  import opened Bits
  import opened Selectors

  /**
   * Reference tree, read top-down: the last selector chooses between the
   * trees of the lower and the upper half of the cells.
   */
  function SelectTop<T>(sels: seq<bool>, cells: seq<T>): T
    requires |cells| == Pow2(|sels|)
    decreases |sels|
  {
    if |sels| == 0 then cells[0]
    else
      var last := |sels| - 1;
      var h := Pow2(last);
      Cmux(sels[last], SelectTop(sels[..last], cells[..h]), SelectTop(sels[..last], cells[h..]))
  }

  /**
   * The reference tree driven by the inverted address row picks the cell
   * the address denotes.
   */
  lemma {:induction false} SelectTopPicksAddress<T>(sels: seq<bool>, cells: seq<T>)
    requires |cells| == Pow2(|sels|)
    ensures SelectTop(sels, cells) == cells[Decode(Flip(sels))]
  {
    if |sels| > 0 {
      var last := |sels| - 1;
      var h := Pow2(last);
      var pre := sels[..last];
      SelectTopPicksAddress(pre, cells[..h]);
      SelectTopPicksAddress(pre, cells[h..]);
      assert Flip(sels) == Flip(pre) + [!sels[last]];
      DecodeSnoc(Flip(pre), !sels[last]);
    }
  }

  /** Slot of block m's summary once r + 1 selectors are consumed: m * 2^r. */
  function Slot(m: nat, r: nat): nat
  {
    m * Pow2(r)
  }

  lemma SlotFits(m: nat, r: nat, n: nat)
    requires r <= n
    requires m < Pow2(n - r)
    ensures Slot(m, r) < Pow2(n)
    ensures (m + 1) * Pow2(r) <= Pow2(n)
  {
    Pow2Add(n - r, r);
    MulMonotone(m + 1, Pow2(n - r), Pow2(r));
  }

  /** a <= b implies a * c <= b * c. */
  lemma {:induction false} MulMonotone(a: nat, b: nat, c: nat)
    requires a <= b
    ensures a * c <= b * c
  {
    if a < b {
      MulMonotone(a, b - 1, c);
      assert b * c == (b - 1) * c + c;
    }
  }

  /** A block of 2h cells at m * 2h splits into blocks 2m and 2m + 1 of h cells. */
  lemma HalvesOfBlock(m: nat, h: nat)
    ensures m * (2 * h) == (2 * m) * h
    ensures (m + 1) * (2 * h) == (2 * m + 2) * h
    ensures (2 * m) * h + h == (2 * m + 1) * h
    ensures (2 * m + 1) * h + h == (2 * m + 2) * h
  {
  }

  lemma SlotIncreasing(a: nat, b: nat, r: nat)
    requires a < b
    ensures Slot(a, r) < Slot(b, r)
  {
    assert Slot(b, r) == Slot(a, r) + (b - a) * Pow2(r);
  }

  lemma SlotDouble(m: nat, r: nat)
    ensures Slot(m, r + 1) == Slot(2 * m, r)
    ensures Slot(2 * m + 1, r) == Slot(m, r + 1) + Pow2(r)
  {
  }

  /**
   * What slot m holds once c selectors are consumed: the reference tree over
   * selectors 0..c-1 and block m, the cells m*2^c up to (m+1)*2^c.
   */
  ghost function Summary<T>(sels: seq<bool>, cells: seq<T>, c: nat, m: nat): T
    requires c <= |sels|
    requires |cells| == Pow2(|sels|)
    requires m < Pow2(|sels| - c)
  {
    SlotFits(m, c, |sels|);
    SelectTop(sels[..c], cells[m * Pow2(c) .. (m + 1) * Pow2(c)])
  }

  /** With no selector consumed, block m is cell m. */
  lemma SummaryCell<T>(sels: seq<bool>, cells: seq<T>, m: nat)
    requires |cells| == Pow2(|sels|)
    requires m < |cells|
    ensures Summary(sels, cells, 0, m) == cells[m]
  {
  }

  /**
   * One round of the tree: block m of size 2^(c+1) is the CMUX, under
   * selector c, of its two halves, blocks 2m and 2m+1 of size 2^c.
   */
  lemma SummaryStep<T>(sels: seq<bool>, cells: seq<T>, c: nat, m: nat)
    requires c < |sels|
    requires |cells| == Pow2(|sels|)
    requires m < Pow2(|sels| - c - 1)
    ensures 2 * m + 1 < Pow2(|sels| - c)
    ensures Summary(sels, cells, c + 1, m)
         == Cmux(sels[c], Summary(sels, cells, c, 2 * m), Summary(sels, cells, c, 2 * m + 1))
  {
    var n := |sels|;
    var h := Pow2(c);
    assert Pow2(n - c) == 2 * Pow2(n - c - 1);
    SlotFits(m, c + 1, n);
    HalvesOfBlock(m, h);
    var lo := m * Pow2(c + 1);
    var block := cells[lo .. (m + 1) * Pow2(c + 1)];
    assert |block| == 2 * h;
    assert block[..h] == cells[(2 * m) * h .. (2 * m + 1) * h];
    assert block[h..] == cells[(2 * m + 1) * h .. (2 * m + 2) * h];
    assert sels[..c + 1][..c] == sels[..c];
    assert Summary(sels, cells, c + 1, m) == SelectTop(sels[..c + 1], block);
  }

  /** Once every selector is consumed, block 0 is the whole memory. */
  lemma {:induction false} SummaryWhole<T>(sels: seq<bool>, cells: seq<T>)
    requires |cells| == Pow2(|sels|)
    ensures Summary(sels, cells, |sels|, 0) == SelectTop(sels, cells)
  {
    assert sels[..|sels|] == sels;
    assert cells[0 .. Pow2(|sels|)] == cells;
  }

  /**
   * After the round that consumes selector r, slot m of the scratch array
   * holds the summary of block m, for every block of size 2^(r+1).
   */
  ghost predicate Summarised<T>(temp: seq<T>, sels: seq<bool>, cells: seq<T>, r: nat)
    requires r < |sels|
    requires |cells| == Pow2(|sels|)
  {
    forall m :: 0 <= m < Pow2(|sels| - r - 1) ==>
      Slot(m, r) < |temp| && temp[Slot(m, r)] == Summary(sels, cells, r + 1, m)
  }

  /**
   * Round 0 of `RAMUX`: adjacent cells under selector 0, written to slots
   * 0 .. num/2 - 1. `done` counts the CMUX evaluations.
   */
  method FirstRound<T>(temp: seq<T>, invaddress: seq<bool>, data: seq<T>) returns (temp': seq<T>, done: nat)
    requires |invaddress| >= 2
    requires |data| == Pow2(|invaddress|)
    requires |temp| == |data| / 2
    ensures |temp'| == |temp|
    ensures Summarised(temp', invaddress, data, 0)
    ensures done == |data| / 2
  {
    var num := |data|;
    temp' := temp;
    done := 0;
    for index := 0 to num / 2
      invariant |temp'| == |temp|
      invariant forall m :: 0 <= m < index ==> temp'[m] == Summary(invaddress, data, 1, m)
      invariant done == index
    {
      temp' := temp'[index := Cmux(invaddress[0], data[2 * index], data[2 * index + 1])];
      SummaryStep(invaddress, data, 0, index);
      SummaryCell(invaddress, data, 2 * index);
      SummaryCell(invaddress, data, 2 * index + 1);
      done := done + 1;
    }
    forall m | 0 <= m < Pow2(|invaddress| - 1)
      ensures Slot(m, 0) < |temp'| && temp'[Slot(m, 0)] == Summary(invaddress, data, 1, m)
    {
    }
  }

  /**
   * Middle round `bit` of `RAMUX`: selector bit+1 merges the slots `stride`
   * apart, writing each result over the lower of the two. `done` counts the
   * CMUX evaluations, `num_trlwe >> (bit + 2)` of them.
   */
  method MiddleRound<T>(temp: seq<T>, invaddress: seq<bool>, data: seq<T>, bit: nat)
    returns (temp': seq<T>, done: nat)
    requires bit + 2 < |invaddress|
    requires |data| == Pow2(|invaddress|)
    requires |temp| == |data| / 2
    requires Summarised(temp, invaddress, data, bit)
    ensures |temp'| == |temp|
    ensures Summarised(temp', invaddress, data, bit + 1)
    ensures done == Pow2(|invaddress| - bit - 2)
  {
    var k := |invaddress|;
    var num := |data|;
    var stride := Pow2(bit);
    ShiftRightPow2(k, bit + 2);
    var count := ShiftRight(num, bit + 2);  // num_trlwe >> (bit + 2)
    assert Pow2(k - bit - 1) == 2 * count;
    ghost var merged := bit + 1;     // slot exponent of the blocks this round produces
    ghost var consumed := bit + 2;   // selectors consumed after this round
    temp' := temp;
    done := 0;
    for index := 0 to count
      invariant |temp'| == |temp|
      invariant forall m :: 0 <= m < index ==>
        Slot(m, merged) < |temp'| && temp'[Slot(m, merged)] == Summary(invaddress, data, consumed, m)
      invariant forall m :: 2 * index <= m < Pow2(k - bit - 1) ==>
        Slot(m, bit) < |temp'| && temp'[Slot(m, bit)] == Summary(invaddress, data, bit + 1, m)
      invariant done == index
    {
      SlotDouble(index, bit);
      ghost var before := temp';
      assert before[(2 * index) * stride] == Summary(invaddress, data, bit + 1, 2 * index);
      assert before[(2 * index + 1) * stride] == Summary(invaddress, data, bit + 1, 2 * index + 1);
      temp' := temp'[(2 * index) * stride := Cmux(invaddress[bit + 1], temp'[(2 * index) * stride],
                                                  temp'[(2 * index + 1) * stride])];
      SummaryStep(invaddress, data, bit + 1, index);
      forall m | 0 <= m < index + 1
        ensures Slot(m, merged) < |temp'|
        ensures temp'[Slot(m, merged)] == Summary(invaddress, data, consumed, m)
      {
        if m < index {
          SlotIncreasing(m, index, bit + 1);
          assert temp'[Slot(m, merged)] == before[Slot(m, merged)];
        }
      }
      forall m | 2 * index + 2 <= m < Pow2(k - bit - 1)
        ensures Slot(m, bit) < |temp'|
        ensures temp'[Slot(m, bit)] == Summary(invaddress, data, bit + 1, m)
      {
        SlotIncreasing(2 * index, m, bit);
        assert temp'[Slot(m, bit)] == before[Slot(m, bit)];
      }
      done := done + 1;
    }
    forall m | 0 <= m < Pow2(k - merged - 1)
      ensures Slot(m, merged) < |temp'|
      ensures temp'[Slot(m, merged)] == Summary(invaddress, data, merged + 1, m)
    {
    }
  }

  /**
   * `RAMUX<address_bit>(res, invaddress, data)`. `data` is a value and stays
   * untouched; only the scratch array `temp` and `res` are written. `evals`
   * counts the CMUX evaluations.
   */
  method Ramux<T>(invaddress: seq<bool>, data: seq<T>) returns (res: T, evals: nat)
    requires |invaddress| >= 2
    requires |data| == Pow2(|invaddress|)
    ensures res == SelectTop(invaddress, data)
    ensures res == data[Decode(Flip(invaddress))]
    ensures evals == |data| - 1
  {
    var k := |invaddress|;
    var num := |data|;
    assert num == 2 * Pow2(k - 1);
    // The scratch array's initial contents are never read: round 0 writes every slot.
    var temp := seq(num / 2, _ => data[0]);

    temp, evals := FirstRound(temp, invaddress, data);

    var bit := 0;
    while bit < k - 2
      invariant 0 <= bit <= k - 2
      invariant |temp| == num / 2
      invariant Summarised(temp, invaddress, data, bit)
      invariant evals == num - Pow2(k - bit - 1)
    {
      var done;
      temp, done := MiddleRound(temp, invaddress, data, bit);
      evals := evals + done;
      bit := bit + 1;
    }

    // Last round: selector k-1 on the summaries of the two halves.
    var stride := Pow2(k - 2);
    assert Pow2(k - bit - 1) == 2;
    assert Slot(0, bit) == 0 && Slot(1, bit) == stride;
    assert temp[Slot(0, bit)] == Summary(invaddress, data, k - 1, 0);
    assert temp[Slot(1, bit)] == Summary(invaddress, data, k - 1, 1);
    res := Cmux(invaddress[k - 1], temp[0], temp[stride]);
    evals := evals + 1;
    SummaryStep(invaddress, data, k - 1, 0);
    SummaryWhole(invaddress, data);
    SelectTopPicksAddress(invaddress, data);
  }
}
