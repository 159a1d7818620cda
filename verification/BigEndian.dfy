/** Fixed-width big-endian numbers, as every header on the wire uses them. */
module BigEndian {
  import opened Options

  function Pow256(width: nat): nat {
    if width == 0 then 1 else 0x100 * Pow256(width - 1)
  }

  function Write(n: nat, width: nat): (w: seq<Byte>)
    ensures |w| == width
  {
    if width == 0 then [] else Write(n / 0x100, width - 1) + [n % 0x100]
  }

  function Read(w: seq<Byte>): (n: nat)
    ensures n < Pow256(|w|)
  {
    if w == [] then 0
    else
      var last: int := w[|w| - 1];
      0x100 * Read(w[..|w| - 1]) + last
  }

  lemma {:induction false} ReadWrite(n: nat, width: nat)
    requires n < Pow256(width)
    ensures Read(Write(n, width)) == n
  {
    if width > 0 {
      ReadWrite(n / 0x100, width - 1);
      assert Write(n, width)[..width - 1] == Write(n / 0x100, width - 1);
    }
  }

  lemma {:induction false} WriteRead(w: seq<Byte>)
    ensures Write(Read(w), |w|) == w
  {
    if w != [] {
      var init := w[..|w| - 1];
      WriteRead(init);
      assert w == init + [w[|w| - 1]];
    }
  }
}
