/**
 * The identifier source behind `uuidv4()`. Every identifier it hands out has
 * the shape of a version-4 UUID: 36 characters, lower-case hexadecimal digits
 * in groups of 8, 4, 4, 4 and 12 separated by '-'. What the stores rely on is
 * that the new identifier is not among those already in use; this source
 * counts through the last group until it finds one that is not.
 */
module Ids {

  /** The number of distinct identifiers the source can produce: 16^12. */
  const Capacity: nat := 0x1_0000_0000_0000

  predicate IsHexDigit(c: char) {
    '0' <= c <= '9' || 'a' <= c <= 'f'
  }

  /** The 8-4-4-4-12 shape of `uuidv4()`'s result. */
  predicate IsUuid(id: string) {
    && |id| == 36
    && (forall i :: 0 <= i < 36 && i != 8 && i != 13 && i != 18 && i != 23 ==> IsHexDigit(id[i]))
    && id[8] == '-' && id[13] == '-' && id[18] == '-' && id[23] == '-'
  }

  function HexChar(d: nat): (c: char)
    requires d < 16
    ensures IsHexDigit(c)
  {
    if d < 10 then ('0' as int + d) as char else ('a' as int + d - 10) as char
  }

  function Pow16(k: nat): (p: nat)
    ensures p >= 1
  {
    if k == 0 then 1 else 16 * Pow16(k - 1)
  }

  /** `n` as `k` hexadecimal digits, most significant first. */
  function Hex(n: nat, k: nat): (s: string)
    ensures |s| == k
    ensures forall i :: 0 <= i < k ==> IsHexDigit(s[i])
  {
    if k == 0 then [] else Hex(n / 16, k - 1) + [HexChar(n % 16)]
  }

  /** Below `16^k`, numbers written with `k` digits are written differently. */
  lemma {:induction false} HexInjective(a: nat, b: nat, k: nat)
    requires a < Pow16(k) && b < Pow16(k)
    requires Hex(a, k) == Hex(b, k)
    ensures a == b
  {
    if k > 0 {
      var sa := Hex(a, k);
      var sb := Hex(b, k);
      assert sa[k - 1] == sb[k - 1];
      assert a % 16 == b % 16;
      assert sa[..k - 1] == Hex(a / 16, k - 1);
      assert sb[..k - 1] == Hex(b / 16, k - 1);
      HexInjective(a / 16, b / 16, k - 1);
    }
  }

  /** The `n`-th identifier of the source. */
  function Uuid(n: nat): (id: string)
    requires n < Capacity
    ensures IsUuid(id)
  {
    "00000000-0000-4000-8000-" + Hex(n, 12)
  }

  lemma UuidInjective(a: nat, b: nat)
    requires a < Capacity && b < Capacity && Uuid(a) == Uuid(b)
    ensures a == b
  {
    assert Pow16(12) == Capacity;
    assert Uuid(a)[24..] == Hex(a, 12);
    assert Uuid(b)[24..] == Hex(b, 12);
    HexInjective(a, b, 12);
  }

  /**
   * `uuidv4()`: an identifier of UUID shape that is not in `used`. The
   * source can produce `Capacity` identifiers, so fewer must be in use.
   */
  method FreshId(used: set<string>) returns (id: string)
    requires |used| < Capacity
    ensures id !in used
    ensures IsUuid(id)
  {
    var n: nat := 0;
    ghost var tried: set<string> := {};
    while Uuid(n) in used
      invariant n <= |used|
      invariant tried <= used && |tried| == n
      invariant forall t :: t in tried ==> exists k :: 0 <= k < n && t == Uuid(k)
      decreases |used| - n
    {
      if Uuid(n) in tried {
        var k :| 0 <= k < n && Uuid(n) == Uuid(k);
        UuidInjective(n, k);
        assert false;
      }
      tried := tried + {Uuid(n)};
      n := n + 1;
      assert |tried| <= |used| by {
        CardSub(tried, used);
      }
    }
    id := Uuid(n);
  }

  lemma CardSub(a: set<string>, b: set<string>)
    requires a <= b
    ensures |a| <= |b|
  {
    assert b == a + (b - a);
  }
}
