/** The proof-of-work test shared by both block generations (`is_mined` in
    `src/blockchain/block.cpp` and `src/block.cpp`): the characters of
    `hash.substr(0, difficulty)` must all be '0'. */
module ProofOfWork {

  /** How many characters `hash.substr(0, difficulty)` keeps. The `int` difficulty is
      converted to `size_t`, so a negative difficulty becomes huge and keeps the whole
      hash, as does one longer than the hash. */
  function PrefixLength(hash: string, difficulty: int): nat {
    if 0 <= difficulty <= |hash| then difficulty else |hash|
  }

  /** The loop of is_mined: false at the first character that is not '0'. */
  function AllZero(s: string): (r: bool)
    ensures r <==> forall i :: 0 <= i < |s| ==> s[i] == '0'
  {
    |s| == 0 || (s[0] == '0' && AllZero(s[1..]))
  }

  /** is_mined: the first min(difficulty, |hash|) characters of the hash are '0' (the
      whole hash for a negative difficulty); vacuous for difficulty 0. */
  function Meets(hash: string, difficulty: int): (r: bool)
    ensures r <==> forall i :: 0 <= i < PrefixLength(hash, difficulty) ==> hash[i] == '0'
    ensures difficulty == 0 ==> r
    ensures difficulty < 0 ==> (r <==> forall i :: 0 <= i < |hash| ==> hash[i] == '0')
  {
    AllZero(hash[..PrefixLength(hash, difficulty)])
  }
}
