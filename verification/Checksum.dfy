/** One's-complement checksums (RFC 1071) and their incremental update (section 3 of RFC 1624). */
module Checksum {
  import opened Words

  const ONES: int := 0xFFFF
  const ONES32: int := 0xFFFF_FFFF

  // ---- verification over a whole header ----

  /** 16-bit addition with the carry added back in. */
  function AddWord(a: uint16, b: uint16): (r: uint16) {
    if a + b >= TWO16 then a + b - ONES else a + b
  }

  /** The one's-complement sum of all words, the checksum field included. */
  function OnesSum(ws: seq<uint16>): uint16 {
    if ws == [] then 0 else AddWord(OnesSum(ws[..|ws| - 1]), ws[|ws| - 1])
  }

  /** A header or segment verifies when the sum is all ones. */
  predicate Verifies(ws: seq<uint16>) {
    OnesSum(ws) == ONES
  }

  /** The ordinary sum of the words. */
  function Total(ws: seq<uint16>): nat {
    if ws == [] then 0 else Total(ws[..|ws| - 1]) + ws[|ws| - 1]
  }

  lemma {:induction false} OnesSumIsResidue(ws: seq<uint16>)
    ensures OnesSum(ws) % ONES == Total(ws) % ONES
    ensures OnesSum(ws) == 0 <==> Total(ws) == 0
  {
    if ws == [] {
    } else {
      OnesSumIsResidue(ws[..|ws| - 1]);
    }
  }

  /** Verification in terms of the ordinary sum. */
  lemma VerifiesExactly(ws: seq<uint16>)
    ensures Verifies(ws) <==> Total(ws) > 0 && Total(ws) % ONES == 0
  {
    OnesSumIsResidue(ws);
  }

  lemma {:induction false} TotalConcat(a: seq<uint16>, b: seq<uint16>)
    ensures Total(a + b) == Total(a) + Total(b)
  {
    if b == [] {
      assert a + b == a;
    } else {
      var whole := a + b;
      assert whole[..|whole| - 1] == a + b[..|b| - 1];
      TotalConcat(a, b[..|b| - 1]);
    }
  }

  /** The two words of a 32-bit field. */
  function Halves(x: uint32): seq<uint16> {
    [x / TWO16, x % TWO16]
  }

  lemma TotalHalves(x: uint32)
    ensures Total(Halves(x)) == x / TWO16 + x % TWO16
    ensures Total(Halves(x)) % ONES == x % ONES
    ensures Total(Halves(x)) == 0 <==> x == 0
  {
    var hs := Halves(x);
    assert hs[..1] == [x / TWO16] && hs[..1][..0] == [];
    assert Total(hs[..1]) == x / TWO16;
  }

  // ---- incremental update ----

  /** 32-bit addition with the carry added back in. */
  function Add32(a: uint32, b: uint32): uint32 {
    if a + b >= TWO32 then a + b - ONES32 else a + b
  }

  /** Folding 32 bits into 16, carry included. */
  function Fold(t: uint32): uint16 {
    var once := t % TWO16 + t / TWO16;
    once % TWO16 + once / TWO16
  }

  /** HC' = ~(~HC + ~m + m') for a 32-bit field that changes from `from` to `to`. */
  function Replace(check: uint16, from: uint32, to: uint32): uint16 {
    var acc := Add32(ONES32 - check, ONES32 - from);
    ONES - Fold(Add32(acc, to))
  }

  lemma Add32Residue(a: uint32, b: uint32)
    ensures Add32(a, b) % ONES == (a + b) % ONES
    ensures Add32(a, b) == 0 <==> a == 0 && b == 0
  {}

  lemma FoldResidue(t: uint32)
    ensures Fold(t) % ONES == t % ONES
    ensures Fold(t) == 0 <==> t == 0
  {}

  /** The new checksum makes up for the change of the field, and it is never all
      ones: a vanishing sum is written as 0. */
  lemma ReplaceResidue(check: uint16, from: uint32, to: uint32)
    ensures (Replace(check, from, to) + to) % ONES == (check + from) % ONES
    ensures Replace(check, from, to) < ONES
  {
    var a, b := ONES32 - check, ONES32 - from;
    Add32Residue(a, b);
    var acc := Add32(a, b);
    Add32Residue(acc, to);
    var t := Add32(acc, to);
    FoldResidue(t);
    ReplaceArithmetic(check, from, to, acc, t, Fold(t));
  }

  lemma ReplaceArithmetic(check: int, from: int, to: int, acc: int, t: int, folded: int)
    requires acc % ONES == (ONES32 - check + (ONES32 - from)) % ONES
    requires t % ONES == (acc + to) % ONES && folded % ONES == t % ONES
    ensures (ONES - folded + to) % ONES == (check + from) % ONES
  {}

  /** Replacing a 32-bit field of something that verifies, with the checksum
      updated incrementally, gives something that verifies, exactly when the new
      data are not all zero. `others` is the sum of the words besides the field
      and the checksum, wherever they stand. */
  lemma ReplaceVerifiesExactly(others: nat, check: uint16, from: uint32, to: uint32, ws: seq<uint16>, ws': seq<uint16>)
    requires Total(ws) == others + Total(Halves(from)) + check
    requires Total(ws') == others + Total(Halves(to)) + Replace(check, from, to)
    requires Verifies(ws)
    ensures Verifies(ws') <==> others > 0 || to > 0
  {
    VerifiesExactly(ws);
    VerifiesExactly(ws');
    TotalHalves(from);
    TotalHalves(to);
    ReplaceResidue(check, from, to);
    SameResidue(others, Total(Halves(from)), check, from, Total(Halves(to)), Replace(check, from, to), to);
  }

  lemma SameResidue(others: int, hf: int, check: int, from: int, ht: int, check': int, to: int)
    requires hf % ONES == from % ONES && ht % ONES == to % ONES
    requires (check' + to) % ONES == (check + from) % ONES
    ensures (others + ht + check') % ONES == (others + hf + check) % ONES
  {}
}
