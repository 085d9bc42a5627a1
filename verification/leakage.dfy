/** The Hamming-weight leakage model of the first AES round: AddRoundKey
    (section 5.1.4 of FIPS 197) followed by SubBytes (section 5.1.1), and the
    hypothesis vector it yields for one key byte and one guess. */
module Leakage {
  import opened Bits
  import opened Results

  /** The S-box is given as a table of 256 bytes; its contents are an input. */
  predicate ValidSbox(sbox: seq<Byte>)
  {
    |sbox| == 256
  }

  /** Predicted leakage of one trace: the Hamming weight of
      `SBOX[p ^ g]`. */
  function Leak(sbox: seq<Byte>, p: Byte, g: Byte): (r: nat)
    requires ValidSbox(sbox)
    ensures r <= 8
    ensures r == PopCount(sbox[XorByte(p, g)])
  {
    HammingWeight(sbox[XorByte(p, g)])
  }

  /** Every plaintext has a byte at position `subkey`. */
  predicate HasByte(plaintexts: seq<seq<Byte>>, subkey: nat)
  {
    forall t :: 0 <= t < |plaintexts| ==> subkey < |plaintexts[t]|
  }

  /** The list `hamming_weights` built for one guess: one leakage value per
      plaintext, in plaintext order. Indexing a plaintext that is too short
      raises `IndexError`. */
  function Hypothesis(sbox: seq<Byte>, plaintexts: seq<seq<Byte>>, subkey: nat, guess: Byte)
    : (r: Result<seq<int>>)
    requires ValidSbox(sbox)
    ensures r.Success? <==> HasByte(plaintexts, subkey)
    ensures r.Failure? ==> r.error == SubkeyIndex
    ensures r.Success? ==> |r.value| == |plaintexts|
    ensures r.Success? ==>
      forall t :: 0 <= t < |plaintexts| ==>
        r.value[t] == Leak(sbox, plaintexts[t][subkey], guess) && 0 <= r.value[t] <= 8
  {
    if |plaintexts| == 0 then Success([])
    else
      var prefix :- Hypothesis(sbox, plaintexts[..|plaintexts| - 1], subkey, guess);
      var last := plaintexts[|plaintexts| - 1];
      if subkey < |last| then Success(prefix + [Leak(sbox, last[subkey], guess)])
      else Failure(SubkeyIndex)
  }
}
