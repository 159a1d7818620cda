/** The length of text in bytes. */
module Utf8 {
  function CharLength(ch: char): nat {
    if ch as int < 0x80 then 1 else if ch as int < 0x800 then 2 else if ch as int < 0x1_0000 then 3 else 4
  }

  /** How many bytes a text takes in UTF-8. */
  function ByteLength(s: string): (n: nat)
    ensures n >= |s|
    ensures n == |s| <==> forall c <- s :: c as int < 0x80
  {
    if s == [] then 0
    else
      assert s[0] in s && (forall d <- s[1..] :: d in s) && forall d <- s :: d == s[0] || d in s[1..];
      CharLength(s[0]) + ByteLength(s[1..])
  }
}
