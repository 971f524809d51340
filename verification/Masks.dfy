/** The masking of what a client sends (section 5.3 of RFC 6455), which lws_write does in the caller's buffer. */
module Masks {
  import opened Bytes
  import opened ClientRx

  predicate PowerOfTwo(m: nat) { m == 1 || (m > 0 && m % 2 == 0 && PowerOfTwo(m / 2)) }

  lemma Powers()
    ensures PowerOfTwo(64) && PowerOfTwo(128) && PowerOfTwo(256)
  {
  }

  lemma XorBit(a: nat, b: nat, m: nat)
    requires 1 < m
    ensures var r := XorBelow(a, b, m); r / 2 == XorBelow(a / 2, b / 2, m / 2) && (r % 2 == 0 <==> a % 2 == b % 2)
  {
  }

  lemma Digits(a: nat, b: nat)
    ensures a == b <==> a / 2 == b / 2 && a % 2 == b % 2
  {
  }

  lemma {:induction false} XorLaws(a: nat, b: nat, m: nat)
    requires PowerOfTwo(m) && a < m && b < m
    ensures XorBelow(a, b, m) == a <==> b == 0
    ensures XorBelow(XorBelow(a, b, m), b, m) == a
  {
    if m > 1 {
      hide XorBelow;
      XorLaws(a / 2, b / 2, m / 2);
      var r := XorBelow(a, b, m);
      XorBit(a, b, m);
      XorBit(r, b, m);
      Digits(r, a);
      Digits(XorBelow(r, b, m), a);
    }
  }

  lemma XorKeeps(a: byte, b: byte)
    ensures Xor(a, b) == a <==> b == 0
    ensures Xor(Xor(a, b), b) == a
  {
    hide XorBelow, PowerOfTwo;
    Powers();
    XorLaws(a, b, 256);
  }

  lemma {:induction false} XorInjective(a: nat, b: nat, c: nat, m: nat)
    requires PowerOfTwo(m) && b < m && c < m
    ensures XorBelow(a, b, m) == XorBelow(a, c, m) <==> b == c
    decreases m
  {
    if m > 1 {
      hide XorBelow;
      XorInjective(a / 2, b / 2, c / 2, m / 2);
      XorBit(a, b, m);
      XorBit(a, c, m);
      Digits(XorBelow(a, b, m), XorBelow(a, c, m));
      Digits(b, c);
    }
  }

  lemma XorCancels(a: byte, b: byte, c: byte)
    ensures Xor(a, b) == Xor(a, c) <==> b == c
  {
    hide XorBelow, PowerOfTwo;
    Powers();
    XorInjective(a, b, c, 256);
  }

  /** The peer, who applies the mask again, reads what was handed to lws_write. */
  lemma Unmasks(data: seq<byte>, key: Key)
    ensures Mask(Mask(data, key), key) == data
  {
    hide Xor;
    forall i | 0 <= i < |data| {
      XorKeeps(data[i], key[i % 4]);
    }
  }

  /** The mask leaves the first `n` bytes as they are. */
  predicate ZeroMask(key: Key, n: nat) { forall i | 0 <= i < n && i < 4 :: key[i] == 0 }

  /** What is left in the caller's buffer is what was there, exactly if the mask is zero on it. */
  lemma MaskKeeps(buf: seq<byte>, n: nat, key: Key)
    requires n <= |buf|
    ensures MaskFront(buf, n, key) == buf <==> ZeroMask(key, n)
  {
    hide Xor;
    var masked := MaskFront(buf, n, key);
    forall i | 0 <= i < n ensures masked[i] == buf[i] <==> key[i % 4] == 0 {
      XorKeeps(buf[i], key[i % 4]);
    }
    if masked == buf {
      forall i | 0 <= i < n && i < 4 ensures key[i] == 0 {
        assert masked[i] == buf[i];
      }
    }
  }

  /** The status 1000 under the mask 1, 2, 3, 4. */
  lemma MaskedStatus(buf: seq<byte>, key: Key)
    requires |buf| >= 2 && buf[0] == 3 && buf[1] == 232 && key[0] == 1 && key[1] == 2
    ensures var m := MaskFront(buf, 2, key); m[0] == 2 && m[1] == 234
  {
    hide XorBelow, PowerOfTwo;
    Powers();
    var a, b, c, d := buf[0], buf[1], key[0], key[1];
    XorBit(a, c, 256);
    XorLaws(a / 2, c / 2, 128);
    XorBit(b, d, 256);
    XorBit(b / 2, d / 2, 128);
    XorLaws(b / 2 / 2, d / 2 / 2, 64);
  }
}
