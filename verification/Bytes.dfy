/** Bytes, options and the few sequence facts the other modules share. */
module Bytes {
  type byte = b: int | 0 <= b < 256

  datatype Option<+T> = None | Some(value: T) {
    function GetOr(default: T): T { if Some? then value else default }
  }

  /** Concatenation of a sequence of sequences. */
  function Flatten<T>(parts: seq<seq<T>>): seq<T>
  {
    if parts == [] then [] else parts[0] + Flatten(parts[1..])
  }

  lemma {:induction false} FlattenConcat<T>(a: seq<seq<T>>, b: seq<seq<T>>)
    ensures Flatten(a + b) == Flatten(a) + Flatten(b)
  {
    if a == [] {
      assert a + b == b;
    } else {
      FlattenConcat(a[1..], b);
      assert (a + b)[1..] == a[1..] + b;
      assert a[0] + (Flatten(a[1..]) + Flatten(b)) == (a[0] + Flatten(a[1..])) + Flatten(b);
    }
  }

  /** Two steps that each pass on `x` into `a` with `p` left over compose. */
  lemma Carry<T>(p0: seq<T>, x: seq<T>, a: seq<T>, p1: seq<T>, y: seq<T>, b: seq<T>, p2: seq<T>)
    requires a + p1 == p0 + x
    requires b + p2 == p1 + y
    ensures (a + b) + p2 == p0 + (x + y)
  {
    assert (a + b) + p2 == a + (b + p2);
    assert a + (p1 + y) == (a + p1) + y;
    assert (p0 + x) + y == p0 + (x + y);
  }

  /** memcpy into a buffer, at an offset. */
  method CopyInto(buf: array<byte>, at: nat, src: seq<byte>)
    requires at + |src| <= buf.Length
    modifies buf
    ensures buf[..at + |src|] == old(buf[..at]) + src
    ensures buf[at + |src|..] == old(buf[at + |src|..])
  {
    var i := 0;
    while i < |src|
      invariant 0 <= i <= |src|
      invariant buf[..at + i] == old(buf[..at]) + src[..i]
      invariant buf[at + |src|..] == old(buf[at + |src|..])
    {
      buf[at + i] := src[i];
      i := i + 1;
    }
  }
}
