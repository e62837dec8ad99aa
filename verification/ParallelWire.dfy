/** The 16-byte control records of the parallel transport. */
module ParallelWire {
  import opened Bytes

  type Record = r: seq<byte> | |r| == 16 witness [0, 0, 0, 0, 0, 0, 0, 0, 0, 0, 0, 0, 0, 0, 0, 0]
  type Word4 = w: seq<byte> | |w| == 4 witness [0, 0, 0, 0]

  const WIRE_VERSION: byte := 4
  const OFFER: byte := 2
  const ACK: byte := 0x82
  const EXEXT: byte := 3
  const PREPARE: byte := 1
  const COMMIT: byte := 3
  const MAX_BLOCK: int := 4096

  const CHAR_E: byte := 69
  const CHAR_X: byte := 88

  const ZERO4: Word4 := [0, 0, 0, 0]

  predicate Nonzero(p: Word4) { p != ZERO4 }

  /** `p[3] | 0x80` for an operation code below 0x80 */
  function ReplyTo(op: byte): byte { if op < 0x80 then op + 0x80 else op }

  function Low(n: int): byte requires 0 <= n { n % 256 }
  function High(n: int): byte requires 0 <= n { (n / 256) % 256 }
  function Pair(lo: byte, hi: byte): int { lo + 256 * hi }

  /** `parallel_block_matches` */
  predicate BlockMatches(offer: Record, p: Record, operation: byte)
  {
    && offer[2] == WIRE_VERSION && offer[..3] == p[..3] && p[3] == operation
    && offer[4..13] == p[4..13] && p[13] == 0
  }

  /** `parallel_offer_valid` for a session of four nonce bytes and two bytes of block number */
  predicate OfferValid(session: seq<byte>, p: Record)
    requires |session| == 6
  {
    && Nonzero(session[..4])
    && p[0] == CHAR_E && p[1] == CHAR_X && p[2] == WIRE_VERSION && p[3] == OFFER
    && p[12] <= 1 && p[13] == 0
    && !(p[10] == 0 && p[11] == 0) && p[11] <= 16 && !(p[11] == 16 && p[10] != 0)
    && session[..4] == p[4..8]
    && var next := (Pair(session[4], session[5]) + 1) % 0x1_0000;
       next != 0 && p[8] == Low(next) && p[9] == High(next)
  }

  /** The offer `transfer` puts together. */
  function MakeOffer(nonce: Word4, number: int, length: int, reverse: bool): Record
    requires 0 <= number && 0 <= length
  {
    [CHAR_E, CHAR_X, WIRE_VERSION, OFFER] + nonce
    + [Low(number), High(number), Low(length), High(length), if reverse then 1 else 0, 0, 0, 0]
  }

  lemma PairSplits(n: int)
    requires 0 <= n < 0x1_0000
    ensures Pair(Low(n), High(n)) == n
  {
  }

  lemma LengthFits(length: int)
    requires 1 <= length <= MAX_BLOCK
    ensures !(Low(length) == 0 && High(length) == 0) && High(length) <= 16 && !(High(length) == 16 && Low(length) != 0)
  {
    var q, r := length / 256, length % 256;
    assert length == 256 * q + r && 0 <= q <= 16;
  }

  lemma OfferFields(nonce: Word4, number: int, length: int, reverse: bool)
    requires 0 <= number && 0 <= length
    ensures var p := MakeOffer(nonce, number, length, reverse);
            && p[0] == CHAR_E && p[1] == CHAR_X && p[2] == WIRE_VERSION && p[3] == OFFER && p[4..8] == nonce
            && p[8] == Low(number) && p[9] == High(number) && p[10] == Low(length) && p[11] == High(length)
            && p[12] == (if reverse then 1 else 0) && p[13] == 0 && p[14] == 0 && p[15] == 0
  {
    hide Low, High;
  }

  /** What an offer says: nonce, number, length and direction, and zeros in the place of the old check. */
  lemma OfferSays(nonce: Word4, number: int, length: int, reverse: bool)
    requires 0 <= number < 0x1_0000 && 0 <= length < 0x1_0000
    ensures var p := MakeOffer(nonce, number, length, reverse);
            && p[..4] == [69, 88, 4, 2] && p[4..8] == nonce && Pair(p[8], p[9]) == number && Pair(p[10], p[11]) == length
            && p[12] == (if reverse then 1 else 0) && p[13..] == [0, 0, 0]
  {
    hide Low, High;
    OfferFields(nonce, number, length, reverse);
    PairSplits(number);
    PairSplits(length);
  }

  lemma PairIsZero(lo: byte, hi: byte)
    ensures Pair(lo, hi) == 0 <==> lo == 0 && hi == 0
    ensures Pair(lo, hi) <= MAX_BLOCK <==> hi <= 16 && !(hi == 16 && lo != 0)
    ensures 0 <= Pair(lo, hi) < 0x1_0000
  {
  }

  /** The check on an offer, field by field: exactly the next number of the session and a length in range. */
  lemma ValidOfferExactly(session: seq<byte>, p: Record)
    requires |session| == 6
    ensures OfferValid(session, p) <==>
              && session[..4] != [0, 0, 0, 0] && p[..4] == [69, 88, 4, 2] && p[4..8] == session[..4]
              && Pair(p[8], p[9]) == Pair(session[4], session[5]) + 1 && 1 <= Pair(p[10], p[11]) <= 4096
              && (p[12] == 0 || p[12] == 1) && p[13] == 0
  {
    hide Low, High, Pair;
    PairIsZero(session[4], session[5]);
    PairIsZero(p[8], p[9]);
    PairIsZero(p[10], p[11]);
    assert p[..4] == [p[0], p[1], p[2], p[3]];
    NextNumber(session[4], session[5], p[8], p[9]);
  }

  lemma NextNumber(lo: byte, hi: byte, lo': byte, hi': byte)
    ensures var next := (Pair(lo, hi) + 1) % 0x1_0000;
            (next != 0 && lo' == Low(next) && hi' == High(next)) <==> Pair(lo', hi') == Pair(lo, hi) + 1
  {
    hide Low, High, Pair;
    PairIsZero(lo, hi);
    PairIsZero(lo', hi');
    var next := (Pair(lo, hi) + 1) % 0x1_0000;
    PairSplits(next);
    LowHigh(lo', hi');
    assert next == if Pair(lo, hi) == 0xFFFF then 0 else Pair(lo, hi) + 1;
    if lo' == Low(next) && hi' == High(next) { assert Pair(lo', hi') == next; }
  }

  lemma LowHigh(lo: byte, hi: byte)
    ensures Low(Pair(lo, hi)) == lo && High(Pair(lo, hi)) == hi
  {
  }

  /** Every offer made for a live session, for the next number and a block of 1..4096 bytes, is valid. */
  lemma MadeOfferIsValid(session: seq<byte>, length: int, reverse: bool)
    requires |session| == 6 && Nonzero(session[..4]) && 1 <= length <= MAX_BLOCK
    requires Pair(session[4], session[5]) != 0xFFFF
    ensures OfferValid(session, MakeOffer(session[..4], Pair(session[4], session[5]) + 1, length, reverse))
  {
    hide MakeOffer, Low, High;
    OfferFields(session[..4], Pair(session[4], session[5]) + 1, length, reverse);
    LengthFits(length);
  }

  lemma BytesOf(n: int, lo: byte, hi: byte)
    requires 0 <= n < 0x1_0000
    ensures lo == Low(n) && hi == High(n) ==> Pair(lo, hi) == n
  {
  }

  lemma LengthInRange(lo: byte, hi: byte)
    requires !(lo == 0 && hi == 0) && hi <= 16 && !(hi == 16 && lo != 0)
    ensures 1 <= Pair(lo, hi) <= MAX_BLOCK
  {
  }

  /** What a valid offer means: the session's own nonce, its next block number, and a length in range. */
  lemma ValidOfferMeans(session: seq<byte>, p: Record)
    requires |session| == 6 && OfferValid(session, p)
    ensures Pair(session[4], session[5]) != 0xFFFF
    ensures Pair(p[8], p[9]) == Pair(session[4], session[5]) + 1
    ensures 1 <= Pair(p[10], p[11]) <= MAX_BLOCK && p[4..8] == session[..4]
  {
    hide Low, High;
    LengthInRange(p[10], p[11]);
    BytesOf((Pair(session[4], session[5]) + 1) % 0x1_0000, p[8], p[9]);
  }
}
