/** White space, as `trim` and `\s` have it. */
module WhiteSpace {
  predicate IsSpace(c: char) {
    var n := c as int;
    9 <= n <= 13 || n == 32 || n == 160 || n == 0x1680 || 0x2000 <= n <= 0x200A || n == 0x2028 || n == 0x2029
    || n == 0x202F || n == 0x205F || n == 0x3000 || n == 0xFEFF
  }

  /** Tabs, line ends, the spaces of the Unicode category Zs and the byte order mark. */
  const WHITE: seq<char> := [
    '\t', '\n', '\U{B}', '\U{C}', '\r', ' ', '\U{A0}', '\U{1680}', '\U{2000}', '\U{2001}', '\U{2002}', '\U{2003}',
    '\U{2004}', '\U{2005}', '\U{2006}', '\U{2007}', '\U{2008}', '\U{2009}', '\U{200A}', '\U{2028}', '\U{2029}',
    '\U{202F}', '\U{205F}', '\U{3000}', '\U{FEFF}']

  /** The ranges are those characters and no others. */
  lemma SpaceIsWhite(c: char)
    ensures IsSpace(c) <==> c in WHITE
  {
    assert WHITE[0] as int == 9 && WHITE[1] as int == 10 && WHITE[2] as int == 11 && WHITE[3] as int == 12;
    assert WHITE[4] as int == 13 && WHITE[5] as int == 32 && WHITE[6] as int == 160 && WHITE[7] as int == 0x1680;
    assert forall k :: 8 <= k <= 18 ==> WHITE[k] as int == 0x2000 + k - 8;
    assert WHITE[19] as int == 0x2028 && WHITE[20] as int == 0x2029 && WHITE[21] as int == 0x202F;
    assert WHITE[22] as int == 0x205F && WHITE[23] as int == 0x3000 && WHITE[24] as int == 0xFEFF;
    if IsSpace(c) {
      var n := c as int;
      var k := if n <= 13 then n - 9 else if n == 32 then 5 else if n == 160 then 6 else if n == 0x1680 then 7
               else if n <= 0x200A then 8 + n - 0x2000 else if n <= 0x2029 then 19 + n - 0x2028
               else if n == 0x202F then 21 else if n == 0x205F then 22 else if n == 0x3000 then 23 else 24;
      assert WHITE[k] as int == n;
      assert WHITE[k] == c;
    }
  }
}
