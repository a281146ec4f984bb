/**
  PKCS#7 padding (section 6.3 of RFC 5652) for a 128-bit block, as the
  cryptography library's PKCS7(128) padder and unpadder apply it.
*/
module Pkcs7 {
  import opened Bytes
  import opened Wrappers

  /**
    Appends p bytes of value p, where p = 16 - |m| mod 16. The result is a
    whole number of blocks, strictly longer than the message, and a
    block-aligned message gains a full block of padding.
  */
  function Pad(m: seq<byte>): (r: seq<byte>)
    ensures |r| % BlockSize == 0
    ensures |m| < |r| <= |m| + BlockSize
    ensures |m| % BlockSize == 0 ==> |r| == |m| + BlockSize
    ensures r[..|m|] == m
    ensures forall i | |m| <= i < |r| :: r[i] as int == |r| - |m|
  {
    var p := BlockSize - |m| % BlockSize;
    m + seq(p, _ => p as byte)
  }

  /**
    Strips the padding. The unpadder's finalize step holds back exactly one
    block, so the input must be a positive multiple of 16 bytes; the last byte
    p must lie in 1..16 and the last p bytes must all equal p. Anything else is
    the library's "Invalid padding bytes" error. Success is only ever on a
    padded message, and the message is returned whole.
  */
  function Unpad(s: seq<byte>): (r: Option<seq<byte>>)
    ensures r.Some? ==> Pad(r.value) == s
  {
    if |s| < BlockSize || |s| % BlockSize != 0 then None
    else
      var last := s[|s| - 1];
      if last == 0 || last > BlockSize as byte then None
      else
        var p := last as int;
        if forall i | |s| - p <= i < |s| :: s[i] == last then
          var m := s[..|s| - p];
          assert Pad(m) == s by {
            assert |m| % BlockSize == BlockSize - p;
            assert Pad(m)[..|m|] == s[..|m|];
            assert forall i | |m| <= i < |s| :: Pad(m)[i] == s[i];
          }
          Some(m)
        else None
  }

  /** Unpadding inverts padding for every message, the empty one included. */
  lemma UnpadPad(m: seq<byte>)
    ensures Unpad(Pad(m)) == Some(m)
  {
    var s := Pad(m);
    var p := |s| - |m|;
    assert s[|s| - 1] as int == p;
    assert forall i | |s| - p <= i < |s| :: s[i] == s[|s| - 1];
    assert s[..|s| - p] == m;
  }

  /** Unpadding succeeds on exactly the padded messages, and then on the right one. */
  lemma UnpadIffPad(s: seq<byte>, m: seq<byte>)
    ensures Unpad(s) == Some(m) <==> s == Pad(m)
  {
    if s == Pad(m) {
      UnpadPad(m);
    }
  }

  /**
    The three ways a final block is rejected: a pad byte of 0, a pad byte
    above 16, or a byte among the last p that differs from p. No message pads
    to such a sequence.
  */
  lemma UnpadRejects(s: seq<byte>)
    requires |s| > 0
    requires var p := s[|s| - 1];
      || p == 0
      || p > BlockSize as byte
      || (p as int <= |s| && exists i | |s| - p as int <= i < |s| :: s[i] != p)
    ensures Unpad(s) == None
    ensures forall m :: Pad(m) != s
  {
    forall m ensures Pad(m) != s {
      if Pad(m) == s {
        UnpadPad(m);
      }
    }
  }
}
