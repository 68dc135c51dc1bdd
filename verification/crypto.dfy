/** The hashing and encoding helpers of `src/blockchain/algorithms/crypto.cpp`: upper-case
    hex encoding, hex decoding through a `std::hex` stream, SHA-256 rendered as hex, and
    the Merkle reduction over a vector of strings. The account-style prototype keeps
    private copies of the same hex codec (`src/block.cpp`, `src/transaction.cpp`); they
    are modelled by the functions here. */
module Crypto {
  import opened Results
  import opened Primitives

  /** The characters `std::uppercase << std::hex` prints. */
  predicate IsHexDigit(c: char) {
    '0' <= c <= '9' || 'A' <= c <= 'F'
  }

  predicate IsHex(s: string) {
    forall i :: 0 <= i < |s| ==> IsHexDigit(s[i])
  }

  function HexDigit(n: int): (c: char)
    requires 0 <= n < 16
    ensures IsHexDigit(c)
  {
    if n < 10 then ('0' as int + n) as char else ('A' as int + n - 10) as char
  }

  /** The value a `std::hex` extraction gives one character, or -1 when the character
      is not a hex digit (either case is accepted on input). */
  function DigitValue(c: char): int {
    if '0' <= c <= '9' then c as int - '0' as int
    else if 'A' <= c <= 'F' then c as int - 'A' as int + 10
    else if 'a' <= c <= 'f' then c as int - 'a' as int + 10
    else -1
  }

  /** `setw(2) << setfill('0') << (0xFF & c)`: two digits, high nibble first. */
  function EncodeByte(c: char): string {
    var b := (c as int) % 256;
    [HexDigit(b / 16), HexDigit(b % 16)]
  }

  /** to_hex: every byte becomes two upper-case hex digits. */
  function ToHex(s: string): (r: string)
    ensures |r| == 2 * |s|
  {
    if |s| == 0 then "" else EncodeByte(s[0]) + ToHex(s[1..])
  }

  /** to_hex prints only upper-case hex digits. */
  lemma {:induction false} ToHexIsHex(s: string)
    ensures IsHex(ToHex(s))
  {
    if |s| > 0 {
      ToHexIsHex(s[1..]);
      HexConcat(EncodeByte(s[0]), ToHex(s[1..]));
    }
  }

  /** One pass of `stream << std::hex << substr(2 * x, 2); stream >> s` followed by the
      cast to `unsigned char`: two digits give their value, a lone leading digit gives
      its own value, and a failed extraction leaves `s == 0`. */
  function DecodePair(a: char, b: char): (c: char)
    ensures c as int < 256
  {
    var hi := DigitValue(a);
    var lo := DigitValue(b);
    if hi >= 0 && lo >= 0 then (16 * hi + lo) as char
    else if hi >= 0 then hi as char
    else 0 as char
  }

  function DecodePairs(s: string): (r: string)
    requires |s| % 2 == 0
    ensures |r| == |s| / 2
    ensures IsBytes(r)
  {
    if |s| == 0 then "" else [DecodePair(s[0], s[1])] + DecodePairs(s[2..])
  }

  /** from_hex: an odd-length input throws; otherwise each pair of characters decodes
      to one byte. */
  function FromHex(s: string): (r: Result<string>)
    ensures r.Failure? <==> |s| % 2 != 0
    ensures r.Failure? ==> r.error == MalformedHex
    ensures r.Success? ==> |r.value| == |s| / 2 && IsBytes(r.value)
  {
    if |s| % 2 != 0 then Failure(MalformedHex) else Success(DecodePairs(s))
  }

  lemma DecodeEncodedByte(c: char)
    requires c as int < 256
    ensures DecodePair(EncodeByte(c)[0], EncodeByte(c)[1]) == c
  {
  }

  lemma {:induction false} DecodeEncoded(s: string)
    requires IsBytes(s)
    ensures DecodePairs(ToHex(s)) == s
  {
    if |s| > 0 {
      var e := EncodeByte(s[0]);
      assert ToHex(s) == e + ToHex(s[1..]);
      assert (e + ToHex(s[1..]))[2..] == ToHex(s[1..]);
      DecodeEncodedByte(s[0]);
      DecodeEncoded(s[1..]);
    }
  }

  /** Round trip: decoding what to_hex produced gives back the original bytes. */
  lemma FromHexToHex(s: string)
    requires IsBytes(s)
    ensures FromHex(ToHex(s)) == Success(s)
  {
    DecodeEncoded(s);
  }

  lemma DigitRoundTrip(c: char)
    requires IsHexDigit(c)
    ensures 0 <= DigitValue(c) < 16 && HexDigit(DigitValue(c)) == c
  {
  }

  lemma SplitByte(hi: int, lo: int)
    requires 0 <= hi < 16 && 0 <= lo < 16
    ensures 0 <= 16 * hi + lo < 256
    ensures (16 * hi + lo) / 16 == hi && (16 * hi + lo) % 16 == lo
  {
  }

  lemma EncodeDecodedPair(a: char, b: char)
    requires IsHexDigit(a) && IsHexDigit(b)
    ensures EncodeByte(DecodePair(a, b)) == [a, b]
  {
    DigitRoundTrip(a);
    DigitRoundTrip(b);
    var hi, lo := DigitValue(a), DigitValue(b);
    SplitByte(hi, lo);
    var v := 16 * hi + lo;
    assert DecodePair(a, b) == v as char;
    assert (v as char) as int % 256 == v;
  }

  lemma {:induction false} EncodeDecoded(h: string)
    requires |h| % 2 == 0 && IsHex(h)
    ensures ToHex(DecodePairs(h)) == h
  {
    if |h| > 0 {
      var d := DecodePairs(h);
      assert d == [DecodePair(h[0], h[1])] + DecodePairs(h[2..]);
      assert d[0] == DecodePair(h[0], h[1]) && d[1..] == DecodePairs(h[2..]);
      EncodeDecodedPair(h[0], h[1]);
      assert IsHex(h[2..]) by {
        forall i | 0 <= i < |h| - 2
          ensures IsHexDigit(h[2..][i])
        {
          assert h[2..][i] == h[i + 2];
        }
      }
      EncodeDecoded(h[2..]);
      assert ToHex(d) == [h[0], h[1]] + h[2..];
      assert h == [h[0], h[1]] + h[2..];
    }
  }

  /** The other direction: an even-length upper-case hex string is what to_hex prints
      for the bytes from_hex reads out of it. */
  lemma ToHexFromHex(h: string)
    requires |h| % 2 == 0 && IsHex(h)
    ensures FromHex(h).Success? && ToHex(FromHex(h).value) == h
  {
    EncodeDecoded(h);
  }

  /** sha256: the 32-byte digest, rendered by to_hex, so always 64 characters. */
  function Sha256(env: Env, s: string): (r: string)
    ensures |r| == 64
  {
    ToHex(env.digest(s))
  }

  /** Every character of a hash is an upper-case hex digit. */
  lemma Sha256IsHex(env: Env, s: string)
    ensures IsHex(Sha256(env, s))
  {
    ToHexIsHex(env.digest(s));
  }

  /** A hash decodes back to the 32 raw digest bytes it renders. */
  lemma Sha256Decodes(env: Env, s: string)
    ensures FromHex(Sha256(env, s)) == Success(env.digest(s))
  {
    FromHexToHex(env.digest(s));
  }

  /** Parent k of a round of merkel_tree. A parent is `sha256(a) + sha256(b)`: the two
      hashes side by side, not hashed again. On an odd level the FIRST node is hashed
      alone as parent 0, and parent k >= 1 pairs nodes 2k - 1 and 2k; on an even level
      parent k pairs nodes 2k and 2k + 1. */
  function Parent(env: Env, nodes: seq<string>, k: int): string
    requires 0 <= k < (|nodes| + 1) / 2
  {
    if |nodes| % 2 == 1 && k == 0 then Sha256(env, nodes[0])
    else
      var j := 2 * k - |nodes| % 2;
      Sha256(env, nodes[j]) + Sha256(env, nodes[j + 1])
  }

  /** One round of merkel_tree: a level of n nodes becomes one of ceil(n / 2) parents. */
  function Level(env: Env, nodes: seq<string>): (r: seq<string>)
    ensures |r| == (|nodes| + 1) / 2
    ensures |nodes| > 1 ==> |r| < |nodes|
  {
    seq((|nodes| + 1) / 2, k requires 0 <= k < (|nodes| + 1) / 2 => Parent(env, nodes, k))
  }

  /** merkel_tree: rounds are applied until one node is left; a single node is returned
      as it is, never hashed. The empty vector is excluded: `front()` of it is undefined. */
  function MerkleRoot(env: Env, tree: seq<string>): (r: string)
    requires |tree| > 0
    ensures |tree| == 1 ==> r == tree[0]
    ensures |tree| > 1 ==> |r| == 128
    decreases |tree|
  {
    if |tree| == 1 then tree[0] else MerkleRoot(env, Level(env, tree))
  }

  lemma HexConcat(a: string, b: string)
    requires IsHex(a) && IsHex(b)
    ensures IsHex(a + b)
  {
    forall i | 0 <= i < |a + b|
      ensures IsHexDigit((a + b)[i])
    {
      if i < |a| {
        assert (a + b)[i] == a[i];
      } else {
        assert (a + b)[i] == b[i - |a|];
      }
    }
  }

  /** The root of two or more leaves is a parent, two hashes side by side: 128 upper-case
      hex digits. */
  lemma {:induction false} MerkleRootIsHex(env: Env, tree: seq<string>)
    requires |tree| > 1
    ensures IsHex(MerkleRoot(env, tree))
    decreases |tree|
  {
    var next := Level(env, tree);
    if |next| == 1 {
      assert |tree| == 2 && next[0] == Sha256(env, tree[0]) + Sha256(env, tree[1]);
      Sha256IsHex(env, tree[0]);
      Sha256IsHex(env, tree[1]);
      HexConcat(Sha256(env, tree[0]), Sha256(env, tree[1]));
    } else {
      MerkleRootIsHex(env, next);
    }
  }

  /** With `p` nodes waiting in `tmp_hash` after `i` nodes of a level of `n`, the count
      from the iterator to the end is even exactly when nothing waits. */
  lemma WaitingParity(n: int, i: int, m: int, p: int)
    requires 0 <= n && (p == 0 || p == 1)
    requires i + n % 2 == 2 * m + p
    ensures (n - i) % 2 == 0 <==> p == 0
  {
  }

  /** The waiting half and the current node's hash complete parent `m`. */
  lemma CompletesParent(env: Env, nodes: seq<string>, i: int, m: int, tmp: string)
    requires 0 <= i < |nodes| && i + |nodes| % 2 == 2 * m + 1
    requires tmp == (if i == 0 then "" else Sha256(env, nodes[i - 1]))
    ensures 0 <= m < (|nodes| + 1) / 2
    ensures tmp + Sha256(env, nodes[i]) == Parent(env, nodes, m)
  {
    if i == 0 {
      assert tmp + Sha256(env, nodes[0]) == Sha256(env, nodes[0]);
    }
  }

  /** The inner loop of merkel_tree (crypto.cpp:78-91), as written: each node's hash is
      appended to `tmp_hash`, which is pushed and reset whenever the count of nodes
      from the iterator to the end is odd. The ghost `p` is 1 while a parent is
      incomplete; an odd level starts with one waiting, whose first half is empty. */
  method MerkleLevel(env: Env, nodes: seq<string>) returns (next: seq<string>)
    ensures next == Level(env, nodes)
  {
    var n := |nodes|;
    ghost var p := n % 2;
    next := [];
    var tmp := "";
    var i := 0;
    while i < n
      invariant 0 <= i <= n && (p == 0 || p == 1)
      invariant i + n % 2 == 2 * |next| + p
      invariant p == 0 ==> tmp == ""
      invariant p == 1 ==> i < n && tmp == (if i == 0 then "" else Sha256(env, nodes[i - 1]))
      invariant forall k :: 0 <= k < |next| ==> k < (n + 1) / 2 && next[k] == Parent(env, nodes, k)
    {
      WaitingParity(n, i, |next|, p);
      if (n - i) % 2 == 0 {
        tmp := tmp + Sha256(env, nodes[i]);
        p := 1;
      } else {
        CompletesParent(env, nodes, i, |next|, tmp);
        next := next + [tmp + Sha256(env, nodes[i])];
        tmp := "";
        p := 0;
      }
      i := i + 1;
    }
    WaitingParity(n, i, |next|, p);
    assert |next| == |Level(env, nodes)|;
  }

  /** merkel_tree as written: rounds until the level has at most one node, then
      `front()`. */
  method MerkleTree(env: Env, tree: seq<string>) returns (root: string)
    requires |tree| > 0
    ensures root == MerkleRoot(env, tree)
  {
    var nodes := tree;
    while |nodes| > 1
      invariant |nodes| > 0
      invariant MerkleRoot(env, nodes) == MerkleRoot(env, tree)
      decreases |nodes|
    {
      nodes := MerkleLevel(env, nodes);
    }
    root := nodes[0];
  }
}
