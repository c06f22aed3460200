// The deterministic sequence of enode keys an output hands out.
module EnodeKeys {
  import opened Text

  type byte = b: int | 0 <= b < 256

  // The order of the curve: valid private keys lie strictly between 0 and it.
  const CURVE_ORDER := 0xFFFFFFFF_FFFFFFFF_FFFFFFFF_FFFFFFFE_BAAEDCE6_AF48A03B_BFD25E8C_D0364141

  const KEY_LENGTH := 32

  // big.Int.Bytes: big-endian, no leading zeros.
  function BytesOf(n: nat): seq<byte> {
    if n == 0 then [] else BytesOf(n / 256) + [n % 256]
  }

  function LeftPad(bs: seq<byte>, length: nat): seq<byte> {
    if |bs| >= length then bs else seq(length - |bs|, _ => 0) + bs
  }

  function HexDigit(d: nat): (c: char)
    requires d < 16
    ensures IsHex(c) && HexValue(c) == d
  {
    if d < 10 then ('0' as int + d) as char else ('a' as int + d - 10) as char
  }

  predicate IsHex(c: char) { '0' <= c <= '9' || 'a' <= c <= 'f' }

  function HexValue(c: char): nat
    requires IsHex(c)
  {
    if c <= '9' then c as int - '0' as int else c as int - 'a' as int + 10
  }

  // hex.EncodeToString
  function Hex(bs: seq<byte>): (s: string)
    ensures |s| == 2 * |bs| && forall i :: 0 <= i < |s| ==> IsHex(s[i])
  {
    if bs == [] then ""
    else
      var b := bs[|bs| - 1];
      Hex(bs[..|bs| - 1]) + [HexDigit(b / 16), HexDigit(b % 16)]
  }

  // The number a hexadecimal text denotes.
  function HexNumber(s: string): nat
    requires forall i :: 0 <= i < |s| ==> IsHex(s[i])
  {
    if s == "" then 0 else HexNumber(s[..|s| - 1]) * 16 + HexValue(s[|s| - 1])
  }

  function KeyText(n: nat): (s: string)
    ensures forall i :: 0 <= i < |s| ==> IsHex(s[i])
  {
    Hex(LeftPad(BytesOf(n), KEY_LENGTH))
  }

  // big.Int.Int64: the low 64 bits as a signed number.
  function Int64(n: nat): int {
    var low := n % 0x1_0000_0000_0000_0000;
    if low < 0x8000_0000_0000_0000 then low else low - 0x1_0000_0000_0000_0000
  }

  function ArtifactName(n: nat): string { "enode-key-" + Show(Int64(n)) + ".txt" }

  datatype EnodeAddr = EnodeAddr(privKey: nat, artifact: string) {
    function PrivKeyHex(): (s: string)
      ensures forall i :: 0 <= i < |s| ==> IsHex(s[i])
    {
      KeyText(privKey)
    }
  }

  // ----- the texts -----

  lemma {:induction false} HexReads(bs: seq<byte>)
    ensures HexNumber(Hex(bs)) == BytesValue(bs)
  {
    if bs != [] {
      var init, b := bs[..|bs| - 1], bs[|bs| - 1];
      HexReads(init);
      var s := Hex(bs);
      assert s[..|s| - 1][..|s| - 2] == Hex(init) && s[..|s| - 1] == Hex(init) + [HexDigit(b / 16)];
      assert HexNumber(s[..|s| - 1]) == HexNumber(Hex(init)) * 16 + b / 16;
    }
  }

  function BytesValue(bs: seq<byte>): nat {
    if bs == [] then 0 else BytesValue(bs[..|bs| - 1]) * 256 + bs[|bs| - 1]
  }

  lemma {:induction false} BytesOfValue(n: nat)
    ensures BytesValue(BytesOf(n)) == n
  {
    if n > 0 {
      BytesOfValue(n / 256);
      assert BytesOf(n)[..|BytesOf(n)| - 1] == BytesOf(n / 256);
    }
  }

  lemma {:induction false} PadValue(zeros: nat, bs: seq<byte>)
    ensures BytesValue(seq(zeros, _ => 0) + bs) == BytesValue(bs)
  {
    var padded := seq(zeros, _ => 0) + bs;
    if bs == [] {
      if zeros > 0 {
        PadValue(zeros - 1, []);
        assert padded[..zeros - 1] == seq(zeros - 1, _ => 0) + [];
      }
    } else {
      PadValue(zeros, bs[..|bs| - 1]);
      assert padded[..|padded| - 1] == seq(zeros, _ => 0) + bs[..|bs| - 1];
    }
  }

  function Pow256(k: nat): nat { if k == 0 then 1 else 256 * Pow256(k - 1) }

  lemma {:induction false} BytesOfLength(n: nat, k: nat)
    requires n < Pow256(k)
    ensures |BytesOf(n)| <= k
  {
    if n > 0 {
      BytesOfLength(n / 256, k - 1);
    }
  }

  lemma LeftPadValue(bs: seq<byte>, length: nat)
    requires |bs| <= length
    ensures |LeftPad(bs, length)| == length && BytesValue(LeftPad(bs, length)) == BytesValue(bs)
  {
    hide BytesValue;
    PadValue(length - |bs|, bs);
  }

  // A key is printed with 64 digits that read back as the key.
  lemma KeyTextReads(n: nat)
    requires n < Pow256(KEY_LENGTH)
    ensures |KeyText(n)| == 64
    ensures HexNumber(KeyText(n)) == n
  {
    hide BytesOf, Pow256, LeftPad, Hex, HexNumber, BytesValue;
    BytesOfLength(n, KEY_LENGTH);
    BytesOfValue(n);
    LeftPadValue(BytesOf(n), KEY_LENGTH);
    HexReads(LeftPad(BytesOf(n), KEY_LENGTH));
  }

  lemma CurveFits()
    ensures CURVE_ORDER < Pow256(KEY_LENGTH)
  {
    assert Pow256(8) == 0x1_00000000_00000000;
    PowAdd(8, 8);
    PowAdd(16, 16);
  }

  lemma {:induction false} PowAdd(a: nat, b: nat)
    ensures Pow256(a + b) == Pow256(a) * Pow256(b)
  {
    if a > 0 {
      PowAdd(a - 1, b);
      assert Pow256(a + b) == 256 * (Pow256(a - 1) * Pow256(b));
    }
  }

  // Neither keys nor artifact names repeat.
  lemma KeysNeverRepeat(m: nat, n: nat)
    requires m < CURVE_ORDER && n < CURVE_ORDER && KeyText(m) == KeyText(n)
    ensures m == n
  {
    hide KeyText;
    CurveFits();
    KeyTextReads(m);
    KeyTextReads(n);
  }

  lemma NamesNeverRepeat(m: nat, n: nat)
    requires m < 0x8000_0000_0000_0000 && n < 0x8000_0000_0000_0000
    requires ArtifactName(m) == ArtifactName(n)
    ensures m == n
  {
    hide ShowNat;
    NameMiddle(m);
    NameMiddle(n);
    ShowNatInjective(m, n);
  }

  lemma Middle(front: string, middle: string, back: string)
    ensures var s := front + middle + back; s[|front|..|s| - |back|] == middle
  {
  }

  // Within the signed range the name holds the number itself.
  lemma NameText(n: nat)
    requires n < 0x8000_0000_0000_0000
    ensures ArtifactName(n) == "enode-key-" + ShowNat(n) + ".txt"
  {
    hide ShowNat, Show, Int64;
    SmallShown(n);
  }

  lemma SmallShown(n: nat)
    requires n < 0x8000_0000_0000_0000
    ensures Int64(n) == n && Show(n) == ShowNat(n)
  {
    hide ShowNat;
  }

  lemma NameMiddle(n: nat)
    requires n < 0x8000_0000_0000_0000
    ensures |ArtifactName(n)| >= 14 && ArtifactName(n)[10..|ArtifactName(n)| - 4] == ShowNat(n)
  {
    hide ShowNat, ArtifactName;
    NameText(n);
    Middle("enode-key-", ShowNat(n), ".txt");
  }

  // ----- the output -----

  class Output {
    var enodeAddrSeq: Option<nat>
    var files: map<string, string>

    constructor ()
      ensures enodeAddrSeq == None && files == map[]
    {
      enodeAddrSeq, files := None, map[];
    }

    // None is a panic: the sequence has left the range of valid keys, or the
    // artifact cannot be written.
    method GetEnodeAddr(writable: string -> bool) returns (r: Option<EnodeAddr>)
      modifies this
      ensures var k := if old(enodeAddrSeq).Some? then old(enodeAddrSeq).value + 1 else 1;
              enodeAddrSeq == Some(k) &&
              if k < CURVE_ORDER && writable(ArtifactName(k)) then
                r.Some? && r.value.privKey == k && r.value.artifact == ArtifactName(k) &&
                files == old(files)[ArtifactName(k) := r.value.PrivKeyHex()]
              else r.None? && files == old(files)
    {
      if enodeAddrSeq.None? {
        enodeAddrSeq := Some(0);
      }
      enodeAddrSeq := Some(enodeAddrSeq.value + 1);
      var k := enodeAddrSeq.value;
      var privKeyBytes := LeftPad(BytesOf(k), KEY_LENGTH);
      ghost var text := KeyText(k);
      if !(0 < k < CURVE_ORDER) {
        return None;
      }
      var fileName := "enode-key-" + Show(Int64(k)) + ".txt";
      if !writable(fileName) {
        return None;
      }
      files := files[fileName := Hex(privKeyBytes)];
      return Some(EnodeAddr(k, fileName));
    }

    // n calls on a fresh output: the k-th key is k, whatever the output, and
    // every artifact holds the key that was handed out with it.
    method GetEnodeAddrs(n: nat) returns (addrs: seq<EnodeAddr>)
      requires enodeAddrSeq == None && n < 0x8000_0000_0000_0000
      modifies this
      ensures |addrs| == n
      ensures forall k :: 0 <= k < n ==>
                addrs[k] == EnodeAddr(k + 1, ArtifactName(k + 1)) && HexNumber(addrs[k].PrivKeyHex()) == k + 1
      ensures forall k :: 0 <= k < n ==> addrs[k].artifact in files && files[addrs[k].artifact] == addrs[k].PrivKeyHex()
    {
      hide ArtifactName, KeyText, HexNumber, Pow256, IsHex;
      addrs := [];
      CurveFits();
      while |addrs| < n
        invariant |addrs| <= n
        invariant enodeAddrSeq == if addrs == [] then None else Some(|addrs|)
        invariant forall k :: 0 <= k < |addrs| ==>
                    addrs[k] == EnodeAddr(k + 1, ArtifactName(k + 1)) && HexNumber(addrs[k].PrivKeyHex()) == k + 1
        invariant forall k :: 0 <= k < |addrs| ==>
                    addrs[k].artifact in files && files[addrs[k].artifact] == addrs[k].PrivKeyHex()
      {
        var r := GetEnodeAddr(_ => true);
        KeyTextReads(|addrs| + 1);
        NewName(addrs);
        addrs := addrs + [r.value];
      }
    }
  }

  lemma NewName(addrs: seq<EnodeAddr>)
    requires |addrs| + 1 < 0x8000_0000_0000_0000
    requires forall k :: 0 <= k < |addrs| ==> addrs[k].artifact == ArtifactName(k + 1)
    ensures forall k :: 0 <= k < |addrs| ==> addrs[k].artifact != ArtifactName(|addrs| + 1)
  {
    hide ArtifactName;
    forall k | 0 <= k < |addrs|
      ensures addrs[k].artifact != ArtifactName(|addrs| + 1)
    {
      if addrs[k].artifact == ArtifactName(|addrs| + 1) { NamesNeverRepeat(k + 1, |addrs| + 1); }
    }
  }
}
