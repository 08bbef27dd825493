/** The compressor's dictionary, and what it is for: however a block begins, a run of equal
    bytes in it is met by a probe that finds an earlier one, and is coded as a reference. */
module LzoRuns {
  import opened Words
  import opened LzoMatch

  // ---------- The dictionary

  const DICT_SIZE := 0x4000

  /** Four bytes as a little-endian word. */
  function Load32(x: seq<byte>, i: nat): (v: nat)
    requires i + 4 <= |x|
    ensures v < TWO_32
  {
    LittleEndianBound4(x[i..i + 4]);
    LittleEndian(x[i..i + 4])
  }

  /** The dictionary slot of a word: a 32-bit product and its top fourteen bits. */
  function DictIndex(dv: nat): (d: nat)
    ensures d < DICT_SIZE
  {
    0x1824429d * dv % TWO_32 / 0x4_0000 % DICT_SIZE
  }

  function Slot(x: seq<byte>, i: nat): (d: nat)
    requires i + 4 <= |x|
    ensures d < DICT_SIZE
  {
    DictIndex(Load32(x, i))
  }

  // ---------- Runs of equal bytes

  /** From `a` to `e` the block from `start` to `end` has equal bytes. */
  predicate RunAt(x: seq<byte>, start: nat, end: nat, a: nat, e: nat) {
    start <= a < e <= end <= |x| && forall k :: a <= k < e ==> x[k] == x[a]
  }

  lemma EqualWords(x: seq<byte>, start: nat, end: nat, a: nat, e: nat, p: nat, q: nat)
    requires RunAt(x, start, end, a, e) && a <= p && p + 4 <= e && a <= q && q + 4 <= e
    ensures Load32(x, p) == Load32(x, q) && Slot(x, p) == Slot(x, q)
  {
    assert x[p..p + 4] == x[q..q + 4];
  }

  // ---------- What coding costs

  /** The bytes of a run before a place. */
  function Inside(a: nat, e: nat, c: nat): (r: nat)
    requires a <= e
    ensures r <= e - a && r <= c
  {
    if c <= a then 0 else if c <= e then c - a else e - a
  }

  /** Room for a reference besides its length bytes, and for the header of literals before it:
      six bytes. All costs are times 16 and times 255. */
  const REFERENCE := 16 * 255 * 6

  const LITERAL := 17 * 255

  /** The first `c` bytes are coded in `op`, of those inside the run all but `u` by `m`
      references. */
  predicate Cost(a: nat, e: nat, c: nat, op: nat, u: nat, m: nat)
    requires a <= e
  {
    var r := Inside(a, e, c);
    16 * 255 * op <= LITERAL * (c - r) + 16 * r + LITERAL * u + REFERENCE * m
  }

  /** An item of the literals from `c` to `p` and a reference to `c'` takes the bytes from `op`
      to `op'`. */
  predicate ItemCost(c: nat, p: nat, c': nat, op: nat, op': nat) {
    && c <= p < c'
    && 16 * op' <= 16 * op + 17 * (c' - c)
    && 16 * 255 * op' <= 16 * 255 * op + LITERAL * (p - c) + 16 * (c' - p) + REFERENCE
  }

  lemma CostOfItem(a: nat, e: nat, c: nat, p: nat, c': nat, op: nat, op': nat, u: nat, m: nat)
    requires a <= e && Cost(a, e, c, op, u, m) && ItemCost(c, p, c', op, op')
    ensures Cost(a, e, c', op', u + (Inside(a, e, p) - Inside(a, e, c)), m + 1)
    ensures c' <= a ==> Cost(a, e, c', op', u, m)
  {
  }

  /** How many bytes of a run, `g` bytes from the start of a block, lie before the first probe in
      it, and before the second. */
  function First(g: nat): nat {
    5 + (g + 4) / 32
  }

  function Second(g: nat): nat {
    First(g) + 1 + (g + First(g)) / 32
  }

  /** All of the run but some bytes is coded by three references at most. */
  predicate Gained(a: nat, e: nat, g: nat, c: nat, op: nat) {
    16 * 255 * op <= LITERAL * (c - (e - a)) + 16 * (e - a) + LITERAL * (Second(g) + 24) + 3 * REFERENCE
  }

  lemma CostGains(a: nat, e: nat, g: nat, c: nat, op: nat, u: nat, m: nat)
    requires a <= e && Cost(a, e, c, op, u, m) && m <= 3
    requires u + (e - a - Inside(a, e, c)) <= Second(g) + 24
    ensures Gained(a, e, g, c, op)
  {
  }

  lemma GainStays(a: nat, e: nat, g: nat, c: nat, op: nat, c': nat, op': nat)
    requires Gained(a, e, g, c, op) && c <= c' && 16 * op' <= 16 * op + 17 * (c' - c)
    ensures Gained(a, e, g, c', op')
  {
    hide Second;
  }

  // ---------- The compressor in a block

  /** The compressor between two probes: its cursor, the start of its literals, the bytes it has
      coded, and whether it goes on from a probe that missed. */
  datatype Place = Place(ip: nat, ii: nat, c: nat, op: nat, missed: bool)

  predicate ValidPlace(start: nat, w: Place) {
    start <= w.ii <= w.ip && w.c <= w.ii && (w.c < w.ii ==> w.ii == start) && (!w.missed ==> w.ip == w.ii == w.c)
  }

  /** Where the next probe is. */
  function NextProbe(w: Place): nat
    requires w.ii <= w.ip
  {
    if w.missed then w.ip + 1 + (w.ip - w.ii) / 32 else w.ip
  }

  /** No probe has been inside the run. */
  predicate Fresh(start: nat, a: nat, e: nat, w: Place)
    requires start <= a <= e && w.ii <= w.ip
  {
    && (w.missed ==> w.c <= a && NextProbe(w) <= a + First(a - start))
    && Cost(a, e, w.c, w.op, 0, if w.c > a then 1 else 0)
  }

  /** The dictionary holds the place of a probe inside the run. */
  predicate Seen(x: seq<byte>, start: nat, a: nat, e: nat, dict: seq<nat>, w: Place, p: nat)
    requires start <= a && e <= |x| && |dict| == DICT_SIZE
  {
    && a <= p && p + 4 <= e && dict[Slot(x, p)] == p - start
    && (if w.missed then
          w.ip == p && p <= (if w.c > a then w.c else a) + First(a - start)
          && Cost(a, e, w.c, w.op, 0, 1)
        else w.c > p && Cost(a, e, w.c, w.op, First(a - start), 2))
  }

  ghost predicate Progress(x: seq<byte>, start: nat, a: nat, e: nat, dict: seq<nat>, w: Place)
    requires start <= a <= e <= |x| && |dict| == DICT_SIZE && ValidPlace(start, w)
  {
    || Gained(a, e, a - start, w.c, w.op)
    || Fresh(start, a, e, w)
    || exists p :: Seen(x, start, a, e, dict, w, p)
  }

  /** A place from which the run is over at once. */
  lemma RunEnds(start: nat, a: nat, e: nat, w: Place, u: nat, m: nat)
    requires start <= a <= e && Cost(a, e, w.c, w.op, u, m) && m <= 3
    requires u <= Second(a - start) && u + (e - (if w.c > a then w.c else a)) <= Second(a - start) + 24
    ensures Gained(a, e, a - start, w.c, w.op)
  {
    hide Second, Cost, Gained;
    CostGains(a, e, a - start, w.c, w.op, u, m);
  }

  /** How far the second probe in a run is from what was coded before it. */
  lemma SecondProbe(x: seq<byte>, start: nat, a: nat, e: nat, dict: seq<nat>, w: Place, p: nat)
    requires start <= a <= e <= |x| && |dict| == DICT_SIZE && ValidPlace(start, w) && Seen(x, start, a, e, dict, w, p)
    ensures p < NextProbe(w) <= (if w.c > a then w.c else a) + if w.missed then Second(a - start) else 0
    ensures exists u: nat, m: nat ::
              && Cost(a, e, w.c, w.op, u, m) && m <= 2
              && u + (if w.missed then Second(a - start) else 0) <= Second(a - start)
  {
    hide Slot, Cost;
    if w.missed {
      assert Cost(a, e, w.c, w.op, 0, 1);
    } else {
      assert Cost(a, e, w.c, w.op, First(a - start), 2);
    }
  }

  lemma FirstBelowSecond(g: nat)
    ensures First(g) + 1 <= Second(g)
  {
  }

  /** When the end of the block is near, so is the end of the run. */
  lemma Stopped(x: seq<byte>, start: nat, end: nat, a: nat, e: nat, dict: seq<nat>, w: Place)
    requires RunAt(x, start, end, a, e) && |dict| == DICT_SIZE && ValidPlace(start, w)
    requires Progress(x, start, a, e, dict, w) && NextProbe(w) + 20 >= end
    ensures Gained(a, e, a - start, w.c, w.op)
  {
    hide Cost, Gained, Second, Slot;
    var g := a - start;
    FirstBelowSecond(g);
    if Fresh(start, a, e, w) {
      RunEnds(start, a, e, w, 0, if w.c > a then 1 else 0);
    } else if exists p :: Seen(x, start, a, e, dict, w, p) {
      var p :| Seen(x, start, a, e, dict, w, p);
      SecondProbe(x, start, a, e, dict, w, p);
      var u: nat, m: nat :| Cost(a, e, w.c, w.op, u, m) && m <= 2
          && u + (if w.missed then Second(g) else 0) <= Second(g);
      RunEnds(start, a, e, w, u, m);
    }
  }

  /** A probe at the end of the run, where no four bytes of it are left. */
  lemma AtTheEnd(x: seq<byte>, start: nat, end: nat, a: nat, e: nat, dict: seq<nat>, w: Place)
    requires RunAt(x, start, end, a, e) && |dict| == DICT_SIZE && ValidPlace(start, w)
    requires Progress(x, start, a, e, dict, w) && NextProbe(w) + 4 > e && NextProbe(w) >= a
    ensures Gained(a, e, a - start, w.c, w.op)
  {
    hide Cost, Gained, Second, Slot;
    var g := a - start;
    FirstBelowSecond(g);
    if Fresh(start, a, e, w) {
      RunEnds(start, a, e, w, 0, if w.c > a then 1 else 0);
    } else if exists p :: Seen(x, start, a, e, dict, w, p) {
      var p :| Seen(x, start, a, e, dict, w, p);
      SecondProbe(x, start, a, e, dict, w, p);
      var u: nat, m: nat :| Cost(a, e, w.c, w.op, u, m) && m <= 2
          && u + (if w.missed then Second(g) else 0) <= Second(g);
      RunEnds(start, a, e, w, u, m);
    }
  }

  /** A probe before the run that misses. */
  lemma MissedBefore(start: nat, a: nat, e: nat, w: Place)
    requires start <= a <= e && ValidPlace(start, w) && Fresh(start, a, e, w) && NextProbe(w) < a
    ensures Fresh(start, a, e, Place(NextProbe(w), w.ii, w.c, w.op, true))
  {
    hide Cost;
    assert (NextProbe(w) - w.ii) / 32 <= (a - start) / 32;
  }

  /** A probe that misses keeps the progress made with a run: once there has been one inside
      the run there are no more. */
  lemma ProbeMisses(x: seq<byte>, start: nat, end: nat, a: nat, e: nat, dict: seq<nat>, w: Place)
    requires RunAt(x, start, end, a, e) && |dict| == DICT_SIZE && ValidPlace(start, w)
    requires Progress(x, start, a, e, dict, w) && NextProbe(w) + 20 < end
    requires start + dict[Slot(x, NextProbe(w))] < NextProbe(w)
    requires Load32(x, NextProbe(w)) != Load32(x, start + dict[Slot(x, NextProbe(w))])
    ensures var q := NextProbe(w);
            Progress(x, start, a, e, dict[Slot(x, q) := q - start], Place(q, w.ii, w.c, w.op, true))
  {
    hide Cost, Gained, Second, Slot, Load32;
    var q := NextProbe(w);
    var dict', w' := dict[Slot(x, q) := q - start], Place(q, w.ii, w.c, w.op, true);
    if Gained(a, e, a - start, w.c, w.op) || (q + 4 > e && q >= a) {
      if !Gained(a, e, a - start, w.c, w.op) {
        AtTheEnd(x, start, end, a, e, dict, w);
      }
    } else if Fresh(start, a, e, w) {
      if q < a {
        MissedBefore(start, a, e, w);
      } else {
        CostMore(a, e, w.c, w.op, if w.c > a then 1 else 0);
        assert Seen(x, start, a, e, dict', w', q);
      }
    } else {
      var p :| Seen(x, start, a, e, dict, w, p);
      SecondProbe(x, start, a, e, dict, w, p);
      EqualWords(x, start, end, a, e, p, q);
      assert false;
    }
  }

  lemma CostMore(a: nat, e: nat, c: nat, op: nat, m: nat)
    requires a <= e && Cost(a, e, c, op, 0, m) && m <= 1
    ensures Cost(a, e, c, op, 0, 1)
  {
  }

  /** A probe that hits codes the rest of the run, if there has been one inside the run, and
      otherwise is itself the first one inside it. */
  lemma {:induction false} ProbeHits(x: seq<byte>, start: nat, end: nat, a: nat, e: nat, dict: seq<nat>, w: Place,
                                     c': nat, op': nat)
    requires RunAt(x, start, end, a, e) && |dict| == DICT_SIZE && ValidPlace(start, w)
    requires Progress(x, start, a, e, dict, w) && NextProbe(w) + 20 < end
    requires start + dict[Slot(x, NextProbe(w))] < NextProbe(w)
    requires var q := NextProbe(w);
             c' == MatchEnd(x, q - (start + dict[Slot(x, q)]), q + 4, end - 20)
             && ItemCost(w.c, q, c', w.op, op')
    ensures var q := NextProbe(w);
            Progress(x, start, a, e, dict[Slot(x, q) := q - start], Place(c', c', c', op', false))
  {
    hide Cost, Gained, Second, Slot, Load32, MatchEnd;
    var q, g := NextProbe(w), a - start;
    var w' := Place(c', c', c', op', false);
    if Gained(a, e, g, w.c, w.op) || (q + 4 > e && q >= a) {
      if !Gained(a, e, g, w.c, w.op) {
        AtTheEnd(x, start, end, a, e, dict, w);
      }
      GainStays(a, e, g, w.c, w.op, c', op');
    } else if Fresh(start, a, e, w) {
      FreshHits(x, start, a, e, dict, w, c', op');
    } else {
      var p :| Seen(x, start, a, e, dict, w, p);
      SeenHits(x, start, end, a, e, dict, w, p, c', op');
    }
  }

  lemma FreshHits(x: seq<byte>, start: nat, a: nat, e: nat, dict: seq<nat>, w: Place, c': nat, op': nat)
    requires start <= a <= e <= |x| && |dict| == DICT_SIZE && ValidPlace(start, w) && Fresh(start, a, e, w)
    requires var q := NextProbe(w);
             (q < a || q + 4 <= e) && q + 4 <= c' && q + 4 <= |x| && ItemCost(w.c, q, c', w.op, op')
    ensures var q := NextProbe(w);
            Progress(x, start, a, e, dict[Slot(x, q) := q - start], Place(c', c', c', op', false))
  {
    hide Gained, Slot, ItemCost;
    var q, m := NextProbe(w), if w.c > a then 1 else 0;
    var dict', w' := dict[Slot(x, q) := q - start], Place(c', c', c', op', false);
    CostOfItem(a, e, w.c, q, c', w.op, op', 0, m) by { QIsLater(w, q, c', op'); }
    if q < a {
      assert Fresh(start, a, e, w');
    } else {
      assert Seen(x, start, a, e, dict', w', q);
    }
  }

  lemma QIsLater(w: Place, q: nat, c': nat, op': nat)
    requires ItemCost(w.c, q, c', w.op, op')
    ensures w.c <= q < c'
  {
  }

  lemma {:induction false} SeenHits(x: seq<byte>, start: nat, end: nat, a: nat, e: nat, dict: seq<nat>, w: Place,
                                    p: nat, c': nat,
                 op': nat)
    requires RunAt(x, start, end, a, e) && |dict| == DICT_SIZE && ValidPlace(start, w)
    requires Seen(x, start, a, e, dict, w, p)
    requires var q := NextProbe(w);
             && a <= q && q + 4 <= e && q + 20 < end && start + dict[Slot(x, q)] < q
             && c' == MatchEnd(x, q - (start + dict[Slot(x, q)]), q + 4, end - 20)
             && ItemCost(w.c, q, c', w.op, op')
    ensures Gained(a, e, a - start, c', op')
  {
    hide Cost, Gained, Second, Slot, Load32, MatchEnd;
    var q, g := NextProbe(w), a - start;
    SecondProbe(x, start, a, e, dict, w, p);
    EqualWords(x, start, end, a, e, p, q);
    MatchEndIsLongest(x, q - p, q + 4, end - 20);
    assert c' >= e || c' >= end - 20;
    var u: nat, m: nat :| Cost(a, e, w.c, w.op, u, m) && m <= 2 && u + (if w.missed then Second(g) else 0) <= Second(g);
    QIsLater(w, q, c', op');
    CostOfItem(a, e, w.c, q, c', w.op, op', u, m);
    CostGains(a, e, g, c', op', u + (Inside(a, e, q) - Inside(a, e, w.c)), m + 1);
  }

  /** Before the first probe of a block. */
  lemma Begins(start: nat, a: nat, e: nat, ti: nat, op: nat)
    requires ti <= start <= a <= e && 16 * op <= 17 * (start - ti)
    ensures var w := Place(start + (if ti < 4 then 4 - ti else 0), start, start - ti, op, true);
            ValidPlace(start, w) && Fresh(start, a, e, w)
  {
  }
}
