/** The kernel-version dispatch of the PCI-DIO96H driver: the VERSION_CODE
    packing macro and the chain of independent `#if` blocks that pulls in one
    kernel-specific implementation file, or stops the build with `#error`. */
module Dio96H {

  import opened Options

  /** 2^k. */
  function Pow2(k: nat): (r: nat)
    ensures r >= 1
  {
    if k == 0 then 1 else 2 * Pow2(k - 1)
  }

  /** Bitwise OR of two non-negative integers, bit by bit from the least
      significant end (the preprocessor's `|`). */
  function Or(a: nat, b: nat): nat
    decreases a + b
  {
    if a == 0 then b
    else if b == 0 then a
    else 2 * Or(a / 2, b / 2) + (if a % 2 == 1 || b % 2 == 1 then 1 else 0)
  }

  /** `x << k` on non-negative integers. */
  function Shl(x: nat, k: nat): nat {
    x * Pow2(k)
  }

  /** VERSION_CODE(vers, rel, seq): ((vers) << 16) | ((rel) << 8) | (seq). */
  function VersionCode(vers: nat, rel: nat, sq: nat): nat {
    Or(Or(Shl(vers, 16), Shl(rel, 8)), sq)
  }

  lemma Pow2Eight()
    ensures Pow2(8) == 256
  {
    assert Pow2(1) == 2;
    assert Pow2(2) == 4;
    assert Pow2(3) == 8;
    assert Pow2(4) == 16;
    assert Pow2(5) == 32;
    assert Pow2(6) == 64;
    assert Pow2(7) == 128;
  }

  lemma Pow2Add(j: nat, k: nat)
    ensures Pow2(j + k) == Pow2(j) * Pow2(k)
  {
    if j > 0 {
      Pow2Add(j - 1, k);
    }
  }

  /** OR-ing a value below 2^k into a multiple of 2^k is addition. */
  lemma {:induction false} OrLowBits(a: nat, b: nat, k: nat)
    requires b < Pow2(k)
    ensures Or(a * Pow2(k), b) == a * Pow2(k) + b
  {
    var x := a * Pow2(k);
    if k == 0 {
      assert b == 0;
    } else if x != 0 && b != 0 {
      var h := a * Pow2(k - 1);
      assert x == 2 * h;
      assert x % 2 == 0 && x / 2 == h;
      OrLowBits(a, b / 2, k - 1);
      assert Or(x, b) == 2 * (h + b / 2) + b % 2;
    }
  }

  /** OR commutes with a common left shift by one. */
  lemma OrDouble(a: nat, b: nat)
    ensures Or(2 * a, 2 * b) == 2 * Or(a, b)
  {
    if a != 0 && b != 0 {
      assert (2 * a) / 2 == a && (2 * b) / 2 == b;
    }
  }

  lemma MulTwice(a: nat, p: nat)
    ensures a * (2 * p) == 2 * (a * p)
  {
  }

  /** OR commutes with a common left shift by k. */
  lemma {:induction false} OrShifted(a: nat, b: nat, k: nat)
    ensures Or(a * Pow2(k), b * Pow2(k)) == Or(a, b) * Pow2(k)
  {
    if k > 0 {
      var p := Pow2(k - 1);
      var ap, bp := a * p, b * p;
      assert Pow2(k) == 2 * p;
      MulTwice(a, p);
      MulTwice(b, p);
      MulTwice(Or(a, b), p);
      calc {
        Or(a * Pow2(k), b * Pow2(k));
        Or(2 * ap, 2 * bp);
        { OrDouble(ap, bp); }
        2 * Or(ap, bp);
        { OrShifted(a, b, k - 1); }
        2 * (Or(a, b) * p);
        Or(a, b) * Pow2(k);
      }
    }
  }

  /** With release and sub-level below 256 the OR packing is plain addition:
      VERSION_CODE(v, r, s) == v * 65536 + r * 256 + s. */
  lemma VersionCodePacked(vers: nat, rel: nat, sq: nat)
    requires rel < 256 && sq < 256
    ensures VersionCode(vers, rel, sq) == vers * 65536 + rel * 256 + sq
  {
    Pow2Eight();
    Pow2Add(8, 8);
    assert Shl(vers, 16) == (vers * 256) * Pow2(8);
    assert Shl(rel, 8) == rel * Pow2(8);
    OrShifted(vers * 256, rel, 8);
    OrLowBits(vers, rel, 8);
    assert Or(Shl(vers, 16), Shl(rel, 8)) == (vers * 256 + rel) * Pow2(8);
    OrLowBits(vers * 256 + rel, sq, 8);
  }

  /** Lexicographic order on (version, patchlevel, sublevel). */
  predicate LexLess(v1: nat, r1: nat, s1: nat, v2: nat, r2: nat, s2: nat) {
    v1 < v2 || (v1 == v2 && (r1 < r2 || (r1 == r2 && s1 < s2)))
  }

  /** Comparing version codes compares the triples lexicographically. */
  lemma VersionCodeOrder(v1: nat, r1: nat, s1: nat, v2: nat, r2: nat, s2: nat)
    requires r1 < 256 && s1 < 256 && r2 < 256 && s2 < 256
    ensures VersionCode(v1, r1, s1) < VersionCode(v2, r2, s2) <==> LexLess(v1, r1, s1, v2, r2, s2)
    ensures VersionCode(v1, r1, s1) == VersionCode(v2, r2, s2) <==> (v1, r1, s1) == (v2, r2, s2)
  {
    VersionCodePacked(v1, r1, s1);
    VersionCodePacked(v2, r2, s2);
    if v1 < v2 {
      assert v1 * 65536 + 65536 <= v2 * 65536;
    } else if v2 < v1 {
      assert v2 * 65536 + 65536 <= v1 * 65536;
    }
  }

  /** What an `#if` block does when its condition holds. */
  datatype Directive = Error(reason: BuildError) | Include(file: string)

  /** The two `#error`s of dio96H.c. */
  datatype BuildError = TooOld | TooNew

  /** One `#if cond ... #endif` block around a single directive. */
  function When(cond: bool, d: Directive): seq<Directive> {
    if cond then [d] else []
  }

  /** The directives the preprocessor acts on for LINUX_VERSION_CODE == code:
      the nine blocks of dio96H.c are independent `#if`s, taken in source
      order. */
  function Directives(code: nat): seq<Directive> {
    When(code < VersionCode(2, 4, 0), Error(TooOld))
    + When(code >= VersionCode(2, 4, 0) && code < VersionCode(2, 4, 0xff), Include("dio96H_2_4.c"))
    + When(code >= VersionCode(2, 6, 0) && code < VersionCode(2, 6, 22), Include("dio96H_2_6_20.c"))
    + When(code >= VersionCode(2, 6, 22) && code < VersionCode(2, 6, 27), Include("dio96H_2_6_26.c"))
    + When(code >= VersionCode(2, 6, 29) && code < VersionCode(2, 6, 35), Include("dio96H_2_6_29.c"))
    + When(code >= VersionCode(3, 0, 0) && code < VersionCode(3, 7, 0), Include("dio96H_3_3_7.c"))
    + When(code >= VersionCode(3, 7, 0) && code < VersionCode(3, 20, 0), Include("dio96H_3_10_11.c"))
    + When(code >= VersionCode(4, 0, 0) && code < VersionCode(4, 20, 0), Include("dio96H_4_0_8.c"))
    + When(code >= VersionCode(4, 20, 0), Error(TooNew))
  }

  /** The value of every VERSION_CODE that dio96H.c compares against. */
  lemma BoundValues()
    ensures VersionCode(2, 4, 0) == 0x020400 && VersionCode(2, 4, 0xff) == 0x0204ff
    ensures VersionCode(2, 6, 0) == 0x020600 && VersionCode(2, 6, 22) == 0x020616
    ensures VersionCode(2, 6, 27) == 0x02061b && VersionCode(2, 6, 29) == 0x02061d
    ensures VersionCode(2, 6, 35) == 0x020623 && VersionCode(3, 0, 0) == 0x030000
    ensures VersionCode(3, 7, 0) == 0x030700 && VersionCode(3, 20, 0) == 0x031400
    ensures VersionCode(4, 0, 0) == 0x040000 && VersionCode(4, 20, 0) == 0x041400
  {
    VersionCodePacked(2, 4, 0);
    VersionCodePacked(2, 4, 0xff);
    VersionCodePacked(2, 6, 0);
    VersionCodePacked(2, 6, 22);
    VersionCodePacked(2, 6, 27);
    VersionCodePacked(2, 6, 29);
    VersionCodePacked(2, 6, 35);
    VersionCodePacked(3, 0, 0);
    VersionCodePacked(3, 7, 0);
    VersionCodePacked(3, 20, 0);
    VersionCodePacked(4, 0, 0);
    VersionCodePacked(4, 20, 0);
  }

  /** The nine blocks of dio96H.c are pairwise disjoint: every kernel
      version gets at most one directive, so at most one implementation file
      is included. */
  lemma AtMostOneDirective(code: nat)
    ensures |Directives(code)| <= 1
  {
    BoundValues();
  }

  /** The directive each range of versions gets, worked out block by block. */
  lemma DirectivesByRange(code: nat)
    ensures code < 0x020400 ==> Directives(code) == [Error(TooOld)]
    ensures 0x020400 <= code < 0x0204ff ==> Directives(code) == [Include("dio96H_2_4.c")]
    ensures 0x020600 <= code < 0x020616 ==> Directives(code) == [Include("dio96H_2_6_20.c")]
    ensures 0x020616 <= code < 0x02061b ==> Directives(code) == [Include("dio96H_2_6_26.c")]
    ensures 0x02061d <= code < 0x020623 ==> Directives(code) == [Include("dio96H_2_6_29.c")]
    ensures 0x030000 <= code < 0x030700 ==> Directives(code) == [Include("dio96H_3_3_7.c")]
    ensures 0x030700 <= code < 0x031400 ==> Directives(code) == [Include("dio96H_3_10_11.c")]
    ensures 0x040000 <= code < 0x041400 ==> Directives(code) == [Include("dio96H_4_0_8.c")]
    ensures 0x041400 <= code ==> Directives(code) == [Error(TooNew)]
  {
    BoundValues();
  }

  /** Versions below 2.4.0 stop the build as too old, and only those. */
  lemma TooOldExactly(code: nat)
    ensures Directives(code) == [Error(TooOld)] <==> code < VersionCode(2, 4, 0)
  {
    BoundValues();
    GapsExactly(code);
    DirectivesByRange(code);
    if code < VersionCode(2, 4, 0) {
    } else if InGap(code) {
    } else {
      assert Directives(code) != [Error(TooOld)] by {
        assert |Directives(code)| == 1 && Directives(code)[0] != Error(TooOld);
      }
    }
  }


  /** Versions from 4.20.0 on stop the build as too new, and only those. */
  lemma TooNewExactly(code: nat)
    ensures Directives(code) == [Error(TooNew)] <==> code >= VersionCode(4, 20, 0)
  {
    BoundValues();
    GapsExactly(code);
    DirectivesByRange(code);
    if code >= VersionCode(4, 20, 0) {
    } else if InGap(code) {
    } else {
      assert Directives(code) != [Error(TooNew)] by {
        assert |Directives(code)| == 1 && Directives(code)[0] != Error(TooNew);
      }
    }
  }


  /** The version ranges for which dio96H.c includes nothing and raises no
      error: [2.4.255, 2.6.0), [2.6.27, 2.6.29), [2.6.35, 3.0.0) and
      [3.20.0, 4.0.0). */
  predicate InGap(code: nat) {
    || VersionCode(2, 4, 0xff) <= code < VersionCode(2, 6, 0)
    || VersionCode(2, 6, 27) <= code < VersionCode(2, 6, 29)
    || VersionCode(2, 6, 35) <= code < VersionCode(3, 0, 0)
    || VersionCode(3, 20, 0) <= code < VersionCode(4, 0, 0)
  }

  /** Nothing fires exactly in the four gaps. */
  lemma GapsExactly(code: nat)
    ensures Directives(code) == [] <==> InGap(code)
  {
    BoundValues();
  }

  /** Exactly the versions outside the two error ranges and the four gaps
      get a single directive, and it is an include. */
  lemma IncludeExactly(code: nat)
    ensures (|Directives(code)| == 1 && Directives(code)[0].Include?)
            <==> !(code < VersionCode(2, 4, 0) || code >= VersionCode(4, 20, 0) || InGap(code))
  {
    BoundValues();
    DirectivesByRange(code);
    GapsExactly(code);
  }

  /** The implementation file included for a version, if any: absent exactly
      for the two `#error` ranges and the four gaps, and otherwise the one
      file the blocks include. */
  function SelectedFile(code: nat): (r: Option<string>)
    ensures r.None? <==> code < VersionCode(2, 4, 0) || code >= VersionCode(4, 20, 0) || InGap(code)
    ensures r.Some? ==> Directives(code) == [Include(r.value)]
  {
    IncludeExactly(code);
    SoleInclude(Directives(code))
  }

  /** The file of a directive list that is a single include. */
  function SoleInclude(ds: seq<Directive>): (r: Option<string>)
    ensures r.None? <==> !(|ds| == 1 && ds[0].Include?)
    ensures r.Some? ==> ds == [Include(r.value)]
  {
    if |ds| == 1 && ds[0].Include? then
      assert ds == [ds[0]];
      Some(ds[0].file)
    else None
  }

  /** Kernels from 2.6.22 up to (not including) 2.6.27 build dio96H_2_6_26.c. */
  lemma Selects2626(vers: nat, rel: nat, sq: nat)
    requires rel < 256 && sq < 256
    requires LexLess(2, 6, 21, vers, rel, sq) && LexLess(vers, rel, sq, 2, 6, 27)
    ensures Directives(VersionCode(vers, rel, sq)) == [Include("dio96H_2_6_26.c")]
  {
    VersionCodeOrder(2, 6, 21, vers, rel, sq);
    VersionCodeOrder(vers, rel, sq, 2, 6, 27);
    VersionCodePacked(2, 6, 21);
    BoundValues();
  }
}
