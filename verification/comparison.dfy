/** The free comparison operators of SimpleVector, as functions over the live
    element sequences of the two operands (`lhs.Elements()`, `rhs.Elements()`).
    `==` compares sizes and then elements in order (std::equal); `<` is
    std::lexicographical_compare under an element order `lt`; the other four are
    derived from these two exactly as the source writes them. */
module Comparison {

  /** `lt` is a strict total order on the element type. */
  ghost predicate StrictTotalOrder<T(!new)>(lt: (T, T) -> bool)
  {
    (forall x :: !lt(x, x)) &&
    (forall x, y, z :: lt(x, y) && lt(y, z) ==> lt(x, z)) &&
    (forall x, y :: x != y ==> lt(x, y) || lt(y, x))
  }

  /** std::equal over two ranges of the same length: a scan from the front that
      stops at the first pair of unequal elements. */
  function RangesEqual<T(==)>(a: seq<T>, b: seq<T>): (r: bool)
    requires |a| == |b|
    ensures r <==> a == b
  {
    if |a| == 0 then true
    else if a[0] != b[0] then false
    else
      var rest := RangesEqual(a[1..], b[1..]);
      assert rest ==> a == [a[0]] + a[1..] == [b[0]] + b[1..] == b;
      rest
  }

  /** operator==: equal sizes and equal elements in order. */
  function Equal<T(==)>(lhs: seq<T>, rhs: seq<T>): (r: bool)
    ensures r <==> lhs == rhs
  {
    if |lhs| != |rhs| then false else RangesEqual(lhs, rhs)
  }

  /** operator!= */
  function NotEqual<T(==)>(lhs: seq<T>, rhs: seq<T>): (r: bool)
    ensures r <==> lhs != rhs
  {
    !Equal(lhs, rhs)
  }

  /** std::lexicographical_compare: walk both ranges together; the first position
      where one element is less than the other decides; if one range runs out
      first, it is the smaller exactly when it is `lhs` and `rhs` still has elements. */
  function Less<T>(lt: (T, T) -> bool, lhs: seq<T>, rhs: seq<T>): (r: bool)
    ensures rhs == [] ==> !r
    ensures |lhs| < |rhs| && lhs == rhs[..|lhs|] ==> r
  {
    if |lhs| == 0 || |rhs| == 0 then |lhs| == 0 && |rhs| != 0
    else if lt(lhs[0], rhs[0]) then true
    else if lt(rhs[0], lhs[0]) then false
    else Less(lt, lhs[1..], rhs[1..])
  }

  /** operator<= as written: lhs < rhs || lhs == rhs. */
  function LessOrEqual<T(==)>(lt: (T, T) -> bool, lhs: seq<T>, rhs: seq<T>): (r: bool)
    ensures lhs == rhs ==> r
    ensures |lhs| < |rhs| && lhs == rhs[..|lhs|] ==> r
    ensures r ==> lhs == rhs || Less(lt, lhs, rhs)
  {
    Less(lt, lhs, rhs) || Equal(lhs, rhs)
  }

  /** operator> as written: rhs < lhs. */
  function Greater<T>(lt: (T, T) -> bool, lhs: seq<T>, rhs: seq<T>): (r: bool)
    ensures lhs == [] ==> !r
    ensures |rhs| < |lhs| && rhs == lhs[..|rhs|] ==> r
  {
    Less(lt, rhs, lhs)
  }

  /** operator>= as written: !(lhs < rhs). */
  function GreaterOrEqual<T>(lt: (T, T) -> bool, lhs: seq<T>, rhs: seq<T>): (r: bool)
    ensures rhs == [] ==> r
    ensures |lhs| < |rhs| && lhs == rhs[..|lhs|] ==> !r
  {
    !Less(lt, lhs, rhs)
  }

  /** The textbook definition of the lexicographic order, independent of the scan:
      `lhs` is a proper prefix of `rhs`, or the two agree up to some position `k`
      where `lhs` holds the smaller element. */
  ghost predicate LexBefore<T(!new)>(lt: (T, T) -> bool, lhs: seq<T>, rhs: seq<T>)
  {
    (|lhs| < |rhs| && lhs == rhs[..|lhs|]) ||
    (exists k :: 0 <= k < |lhs| && k < |rhs| && lhs[..k] == rhs[..k] && lt(lhs[k], rhs[k]))
  }

  /** For a strict total element order, the scan computes exactly the textbook order. */
  lemma {:induction false} LessIsLexicographic<T(!new)>(lt: (T, T) -> bool, lhs: seq<T>, rhs: seq<T>)
    requires StrictTotalOrder(lt)
    ensures Less(lt, lhs, rhs) <==> LexBefore(lt, lhs, rhs)
    decreases |lhs|
  {
    if |lhs| == 0 || |rhs| == 0 {
      if |lhs| == 0 && |rhs| != 0 {
        assert lhs == rhs[..0];
      }
      if LexBefore(lt, lhs, rhs) {
        assert |lhs| < |rhs|;
      }
    } else if lt(lhs[0], rhs[0]) {
      assert lhs[..0] == rhs[..0];
    } else if lt(rhs[0], lhs[0]) {
    } else {
      assert lhs[0] == rhs[0];
      LessIsLexicographic(lt, lhs[1..], rhs[1..]);
      if LexBefore(lt, lhs[1..], rhs[1..]) {
        if |lhs[1..]| < |rhs[1..]| && lhs[1..] == rhs[1..][..|lhs[1..]|] {
          assert lhs == [lhs[0]] + lhs[1..] == [rhs[0]] + rhs[1..][..|lhs| - 1] == rhs[..|lhs|];
        } else {
          var k :| 0 <= k < |lhs[1..]| && k < |rhs[1..]| && lhs[1..][..k] == rhs[1..][..k]
                   && lt(lhs[1..][k], rhs[1..][k]);
          assert lhs[..k + 1] == [lhs[0]] + lhs[1..][..k] == [rhs[0]] + rhs[1..][..k] == rhs[..k + 1];
          assert lt(lhs[k + 1], rhs[k + 1]);
        }
      }
      if LexBefore(lt, lhs, rhs) {
        if |lhs| < |rhs| && lhs == rhs[..|lhs|] {
          assert lhs[1..] == rhs[1..][..|lhs| - 1];
        } else {
          var k :| 0 <= k < |lhs| && k < |rhs| && lhs[..k] == rhs[..k] && lt(lhs[k], rhs[k]);
          if k == 0 {
            assert false;
          } else {
            assert lhs[1..][..k - 1] == lhs[..k][1..] == rhs[..k][1..] == rhs[1..][..k - 1];
            assert lt(lhs[1..][k - 1], rhs[1..][k - 1]);
          }
        }
      }
    }
  }

  /** No sequence is less than itself. */
  lemma {:induction false} LessIrreflexive<T(!new)>(lt: (T, T) -> bool, s: seq<T>)
    requires forall x :: !lt(x, x)
    ensures !Less(lt, s, s)
    decreases |s|
  {
    if |s| > 0 {
      LessIrreflexive(lt, s[1..]);
    }
  }

  /** Lexicographic order is transitive. */
  lemma {:induction false} LessTransitive<T(!new)>(lt: (T, T) -> bool, a: seq<T>, b: seq<T>, c: seq<T>)
    requires StrictTotalOrder(lt)
    requires Less(lt, a, b) && Less(lt, b, c)
    ensures Less(lt, a, c)
    decreases |a|
  {
    if |a| != 0 && |b| != 0 && |c| != 0 {
      if !lt(a[0], b[0]) && !lt(b[0], c[0]) {
        // a[0] == b[0] == c[0], and the rest decides
        LessTransitive(lt, a[1..], b[1..], c[1..]);
      }
    }
  }

  /** Exactly one of lhs < rhs, lhs == rhs, rhs < lhs holds. */
  lemma {:induction false} Trichotomy<T(!new)>(lt: (T, T) -> bool, lhs: seq<T>, rhs: seq<T>)
    requires StrictTotalOrder(lt)
    ensures Less(lt, lhs, rhs) || lhs == rhs || Less(lt, rhs, lhs)
    ensures !(Less(lt, lhs, rhs) && Less(lt, rhs, lhs))
    ensures lhs == rhs ==> !Less(lt, lhs, rhs)
    decreases |lhs|
  {
    if |lhs| != 0 && |rhs| != 0 {
      Trichotomy(lt, lhs[1..], rhs[1..]);
      if lhs[0] == rhs[0] && lhs[1..] == rhs[1..] {
        assert lhs == [lhs[0]] + lhs[1..] == [rhs[0]] + rhs[1..] == rhs;
      }
    }
  }

  /** The derived operators agree with their mathematical meaning: `<=` is "not
      greater", `>=` is "greater or equal", and `!=`/`==` are complementary. */
  lemma DerivedOperators<T(!new)>(lt: (T, T) -> bool, lhs: seq<T>, rhs: seq<T>)
    requires StrictTotalOrder(lt)
    ensures LessOrEqual(lt, lhs, rhs) <==> !Greater(lt, lhs, rhs)
    ensures GreaterOrEqual(lt, lhs, rhs) <==> Greater(lt, lhs, rhs) || Equal(lhs, rhs)
    ensures LessOrEqual(lt, lhs, rhs) <==> GreaterOrEqual(lt, rhs, lhs)
    ensures NotEqual(lhs, rhs) <==> Less(lt, lhs, rhs) || Greater(lt, lhs, rhs)
  {
    Trichotomy(lt, lhs, rhs);
  }

  /** `operator<` on `int`, the element order of an `int` vector. */
  function IntLess(x: int, y: int): bool
  {
    x < y
  }

  /** The usual order on `int` is one such order, so the lemmas above apply to it. */
  lemma IntOrderIsStrictTotal()
    ensures StrictTotalOrder(IntLess)
  {
  }
}
