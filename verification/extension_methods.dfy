/** Numeric, vector and string helpers that the rest of the plugin calls as
    extension methods. */
module ExtensionMethods {
  import opened Unity
  import opened Wrappers

  // ---------------------------------------------------------------- numbers

  /** Linear remap of `value` from the range [from1, to1] onto [from2, to2].
      The source divides by `to1 - from1`, so an empty source range is excluded. */
  function Remap(value: real, from1: real, to1: real, from2: real, to2: real): (r: real)
    requires from1 != to1
    ensures value == from1 ==> r == from2
    ensures value == to1 ==> r == to2
    ensures from1 < to1 && from1 <= value <= to1 && from2 <= to2 ==> from2 <= r <= to2
  {
    var t := (value - from1) / (to1 - from1);
    FractionEnds(value, from1, to1);
    RemapWithin(value, from1, to1, from2, to2);
    t * (to2 - from2) + from2
  }

  lemma FractionEnds(value: real, from1: real, to1: real)
    requires from1 != to1
    ensures value == from1 ==> (value - from1) / (to1 - from1) == 0.0
    ensures value == to1 ==> (value - from1) / (to1 - from1) == 1.0
  {
  }

  /** A value inside an increasing source range lands inside the target range. */
  lemma RemapWithin(value: real, from1: real, to1: real, from2: real, to2: real)
    requires from1 != to1
    ensures var t := (value - from1) / (to1 - from1);
            from1 < to1 && from1 <= value <= to1 && from2 <= to2 ==> from2 <= t * (to2 - from2) + from2 <= to2
  {
    var t := (value - from1) / (to1 - from1);
    if from1 < to1 && from1 <= value <= to1 && from2 <= to2 {
      FractionInUnit(value - from1, to1 - from1);
      MulNonNeg(t, to2 - from2);
      MulAtMost(t, to2 - from2);
    }
  }

  lemma FractionInUnit(a: real, b: real)
    requires 0.0 <= a <= b && b > 0.0
    ensures 0.0 <= a / b <= 1.0
  {
  }

  lemma MulNonNeg(a: real, b: real)
    requires a >= 0.0 && b >= 0.0
    ensures a * b >= 0.0
  {
  }

  lemma MulAtMost(t: real, b: real)
    requires 0.0 <= t <= 1.0 && b >= 0.0
    ensures t * b <= b
  {
    assert b - t * b == (1.0 - t) * b;
    MulNonNeg(1.0 - t, b);
  }

  /** The two ends of the source range land on the two ends of the target range. */
  lemma RemapEndpoints(from1: real, to1: real, from2: real, to2: real)
    requires from1 != to1
    ensures Remap(from1, from1, to1, from2, to2) == from2
    ensures Remap(to1, from1, to1, from2, to2) == to2
  {
    assert (to1 - from1) / (to1 - from1) == 1.0;
  }

  /** Remapping back with the ranges swapped gives the original value. */
  lemma RemapInverse(v: real, a: real, b: real, c: real, d: real)
    requires a != b && c != d
    ensures Remap(Remap(v, a, b, c, d), c, d, a, b) == v
  {
    var t := (v - a) / (b - a);
    var w := t * (d - c) + c;
    assert Remap(v, a, b, c, d) == w;
    assert (w - c) / (d - c) == t;
    assert t * (b - a) == v - a;
  }

  /** Remap followed by `Mathf.Clamp` to the target range. */
  function RemapAndClamp(value: real, from1: real, to1: real, from2: real, to2: real): (r: real)
    requires from1 != to1
    ensures from2 <= to2 ==> from2 <= r <= to2
    ensures from2 <= Remap(value, from1, to1, from2, to2) <= to2 ==> r == Remap(value, from1, to1, from2, to2)
  {
    Clamp(Remap(value, from1, to1, from2, to2), from2, to2)
  }

  /** The extension `FloorToInt`. */
  function FloorToInt(value: real): (n: int)
    ensures n as real <= value < n as real + 1.0
  {
    Floor(value)
  }

  /** The extension `CeilToInt` as written: it delegates to the floor, so
      it rounds down and not up. */
  function CeilToInt(value: real): (n: int)
    ensures n as real <= value < n as real + 1.0
  {
    Floor(value)
  }

  /** An input on which the extension `CeilToInt` and a true ceiling differ. */
  lemma CeilToIntIsNotCeiling()
    ensures CeilToInt(0.5) == 0
    ensures Ceil(0.5) == 1
    ensures CeilToInt(0.5) != Ceil(0.5)
  {
  }

  /** `ToInt`: rounding through `Mathf.RoundToInt`. */
  function ToInt(value: real): (n: int)
    ensures value - 0.5 <= n as real <= value + 0.5
    ensures n as real - value == 0.5 || value - n as real == 0.5 ==> n % 2 == 0
  {
    RoundToInt(value)
  }

  // ---------------------------------------------------------------- vectors

  /** Approximate vector comparison: the SQUARED distance is compared with
      `accuracy` itself (0.01 by default), not with its square. */
  predicate AlmostEqual(a: Vec3, b: Vec3, accuracy: real := 0.01): (r: bool)
    ensures accuracy <= 0.0 ==> !r
    ensures a == b && accuracy > 0.0 ==> r
  {
    var d := Sub(a, b);
    SquareNonNeg(d.x);
    SquareNonNeg(d.y);
    SquareNonNeg(d.z);
    SqrMagnitude(Sub(a, b)) < accuracy
  }

  /** The relation is symmetric, reflexive for a positive accuracy, and admits
      two points 0.05 apart under the default accuracy of 0.01. */
  lemma AlmostEqualProperties(a: Vec3, b: Vec3, accuracy: real)
    ensures AlmostEqual(a, b, accuracy) <==> AlmostEqual(b, a, accuracy)
    ensures accuracy > 0.0 ==> AlmostEqual(a, a, accuracy)
    ensures AlmostEqual(Zero3, Vec3(0.05, 0.0, 0.0))
    ensures !AlmostEqual(Zero3, Vec3(0.1, 0.0, 0.0))
  {
    var d := Sub(a, b);
    var e := Sub(b, a);
    assert SqrMagnitude(e) == SqrMagnitude(d) by {
      assert e.x * e.x == d.x * d.x;
      assert e.y * e.y == d.y * d.y;
      assert e.z * e.z == d.z * d.z;
    }
  }

  lemma SquareNonNeg(x: real)
    ensures x * x >= 0.0
  {
    if x < 0.0 {
      assert x * x == (-x) * (-x);
      MulNonNeg(-x, -x);
    } else {
      MulNonNeg(x, x);
    }
  }

  /** `ModifyX`: a copy with x replaced. */
  function ModifyX(v: Vec3, newVal: real): (r: Vec3)
    ensures r.x == newVal && r.y == v.y && r.z == v.z
    ensures newVal == v.x <==> r == v
  {
    Vec3(newVal, v.y, v.z)
  }

  /** `ModifyY`: a copy with y replaced. */
  function ModifyY(v: Vec3, newVal: real): (r: Vec3)
    ensures r.y == newVal && r.x == v.x && r.z == v.z
    ensures newVal == v.y <==> r == v
  {
    Vec3(v.x, newVal, v.z)
  }

  /** `ModifyZ`: a copy with z replaced. */
  function ModifyZ(v: Vec3, newVal: real): (r: Vec3)
    ensures r.z == newVal && r.x == v.x && r.y == v.y
    ensures newVal == v.z <==> r == v
  {
    Vec3(v.x, v.y, newVal)
  }

  /** `ModifyVectorX`: a copy of a 2D vector with x replaced. */
  function ModifyVectorX(v: Vec2, newVal: real): (r: Vec2)
    ensures r.x == newVal && r.y == v.y
    ensures newVal == v.x <==> r == v
  {
    Vec2(newVal, v.y)
  }

  /** `ModifyVectorY`: a copy of a 2D vector with y replaced. */
  function ModifyVectorY(v: Vec2, newVal: real): (r: Vec2)
    ensures r.y == newVal && r.x == v.x
    ensures newVal == v.y <==> r == v
  {
    Vec2(v.x, newVal)
  }

  /** Each setter replaces exactly its own component: the new value is read
      back, the other components are the original's, writing a component's own
      value changes nothing, the last write to a component wins, and writes to
      different components commute. */
  lemma ModifyComponentLaws(v: Vec3, a: real, b: real)
    ensures ModifyX(v, a).x == a && ModifyX(v, a).y == v.y && ModifyX(v, a).z == v.z
    ensures ModifyY(v, a).y == a && ModifyY(v, a).x == v.x && ModifyY(v, a).z == v.z
    ensures ModifyZ(v, a).z == a && ModifyZ(v, a).x == v.x && ModifyZ(v, a).y == v.y
    ensures ModifyX(v, v.x) == v && ModifyY(v, v.y) == v && ModifyZ(v, v.z) == v
    ensures ModifyX(ModifyX(v, a), b) == ModifyX(v, b)
    ensures ModifyY(ModifyY(v, a), b) == ModifyY(v, b)
    ensures ModifyZ(ModifyZ(v, a), b) == ModifyZ(v, b)
    ensures ModifyX(ModifyY(v, a), b) == ModifyY(ModifyX(v, b), a)
    ensures ModifyX(ModifyZ(v, a), b) == ModifyZ(ModifyX(v, b), a)
    ensures ModifyY(ModifyZ(v, a), b) == ModifyZ(ModifyY(v, b), a)
  {
  }

  /** The same laws for the two-component setters. */
  lemma ModifyVectorLaws(v: Vec2, a: real, b: real)
    ensures ModifyVectorX(v, a) == Vec2(a, v.y) && ModifyVectorY(v, a) == Vec2(v.x, a)
    ensures ModifyVectorX(v, v.x) == v && ModifyVectorY(v, v.y) == v
    ensures ModifyVectorX(ModifyVectorY(v, a), b) == ModifyVectorY(ModifyVectorX(v, b), a)
  {
  }

  // ---------------------------------------------------------------- strings

  /** An element of an enumerable: a null reference, or an object whose
      `ToString()` is `text`. */
  datatype Element = NullElement | Element(text: string)

  /** Calling `ToString()` on a null element throws. */
  datatype Exception = NullReference

  predicate HasNull(items: seq<Element>)
  {
    exists i :: 0 <= i < |items| && items[i].NullElement?
  }

  /** Reference join: the parts with `sep` between neighbours. */
  function Join(parts: seq<string>, sep: string): (r: string)
  {
    if |parts| == 0 then ""
    else if |parts| == 1 then parts[0]
    else Join(parts[..|parts| - 1], sep) + sep + parts[|parts| - 1]
  }

  /** The join built from the last part is the join built from the first. */
  lemma {:induction false} JoinFront(parts: seq<string>, sep: string)
    requires |parts| >= 2
    ensures Join(parts, sep) == parts[0] + sep + Join(parts[1..], sep)
    decreases |parts|
  {
    var init := parts[..|parts| - 1];
    if |parts| > 2 {
      JoinFront(init, sep);
      assert init[1..] == parts[1..][..|parts| - 2];
    }
  }

  lemma {:induction false} JoinEndsWithLast(parts: seq<string>, sep: string)
    requires |parts| > 0
    ensures |Join(parts, sep)| >= |parts[|parts| - 1]|
  {
  }

  /** The accumulation step of `ToStringInline`: the separator is added only
      when the string built so far is not empty. */
  function InlineStep(acc: string, sep: string, prefix: string, text: string): string
  {
    (if acc != "" then acc + sep else acc) + prefix + text
  }

  function InlineSeparator(eachItemInNewLine: bool): string
  {
    if eachItemInNewLine then "\n" else ", "
  }

  /** The body of `ToStringInline` over a list of elements, folded left. */
  function InlineFold(items: seq<Element>, sep: string, prefix: string): Result<string, Exception>
  {
    if |items| == 0 then Ok("")
    else
      var acc :- InlineFold(items[..|items| - 1], sep, prefix);
      var last := items[|items| - 1];
      if last.NullElement? then Err(NullReference)
      else Ok(InlineStep(acc, sep, prefix, last.text))
  }

  /** `ToStringInline`: "NULL" for a null list; otherwise every element as
      `prefix + text`, separated by ", " or a newline. */
  function ToStringInline(list: Option<seq<Element>>, eachItemInNewLine: bool := false, eachItemPrefix: string := ""): (r: Result<string, Exception>)
    ensures list.None? ==> r == Ok("NULL")
    ensures list.Some? ==> r == InlineFold(list.value, InlineSeparator(eachItemInNewLine), eachItemPrefix)
  {
    if list.None? then Ok("NULL")
    else InlineFold(list.value, InlineSeparator(eachItemInNewLine), eachItemPrefix)
  }

  function Texts(items: seq<Element>): seq<string>
    requires !HasNull(items)
  {
    seq(|items|, i requires 0 <= i < |items| => items[i].text)
  }

  function Prefixed(prefix: string, texts: seq<string>): seq<string>
  {
    seq(|texts|, i requires 0 <= i < |texts| => prefix + texts[i])
  }

  /** A null element anywhere makes the fold throw. */
  lemma {:induction false} InlineFoldNull(items: seq<Element>, sep: string, prefix: string)
    ensures InlineFold(items, sep, prefix).Err? <==> HasNull(items)
  {
    if |items| > 0 {
      var front := items[..|items| - 1];
      InlineFoldNull(front, sep, prefix);
      if HasNull(front) {
        var i :| 0 <= i < |front| && front[i].NullElement?;
        assert items[i].NullElement?;
      }
      if HasNull(items) && !items[|items| - 1].NullElement? {
        var i :| 0 <= i < |items| && items[i].NullElement?;
        assert front[i].NullElement?;
      }
    }
  }

  /** When every emitted piece `prefix + text` is non-empty, the fold is the
      plain join of the pieces. */
  lemma {:induction false} InlineFoldIsJoin(items: seq<Element>, sep: string, prefix: string)
    requires !HasNull(items)
    requires forall i :: 0 <= i < |items| ==> prefix + items[i].text != ""
    ensures InlineFold(items, sep, prefix) == Ok(Join(Prefixed(prefix, Texts(items)), sep))
  {
    var parts := Prefixed(prefix, Texts(items));
    if |items| > 0 {
      var front := items[..|items| - 1];
      InlineFoldIsJoin(front, sep, prefix);
      assert Prefixed(prefix, Texts(front)) == parts[..|parts| - 1];
      var acc := Join(parts[..|parts| - 1], sep);
      assert InlineFold(front, sep, prefix) == Ok(acc);
      var last := items[|items| - 1];
      assert InlineFold(items, sep, prefix) == Ok(InlineStep(acc, sep, prefix, last.text));
      assert parts[|parts| - 1] == prefix + last.text;
      if |items| > 1 {
        JoinEndsWithLast(parts[..|parts| - 1], sep);
        assert parts[|parts| - 2] == prefix + items[|items| - 2].text;
        assert acc != "";
        assert Join(parts, sep) == acc + sep + parts[|parts| - 1];
        assert InlineStep(acc, sep, prefix, last.text) == acc + sep + (prefix + last.text);
      } else {
        assert acc == "";
        assert Join(parts, sep) == parts[0];
        assert InlineStep(acc, sep, prefix, last.text) == prefix + last.text;
      }
    }
  }

  /** With no prefix and only empty texts nothing is emitted: no separator
      is ever added to an empty string. */
  lemma {:induction false} InlineFoldAllEmpty(items: seq<Element>, sep: string)
    requires forall i :: 0 <= i < |items| ==> items[i] == Element("")
    ensures InlineFold(items, sep, "") == Ok("")
  {
    if |items| > 0 {
      var front := items[..|items| - 1];
      InlineFoldAllEmpty(front, sep);
      assert InlineFold(front, sep, "") == Ok("");
      assert items[|items| - 1] == Element("");
      assert InlineStep("", sep, "", "") == "";
    }
  }

  /** What follows element `i` of `n` in `ToStringSeparatedBy`: nothing after
      the last one, the override before the last one when it is non-empty,
      the separator otherwise. */
  function SeparatorAfter(i: int, n: int, separator: string, lastSeparatorOverride: string): string
  {
    if i < n - 1 then
      (if n > 1 && i == n - 2 && lastSeparatorOverride != "" then lastSeparatorOverride else separator)
    else ""
  }

  /** The contribution of element `i`: an element whose text is empty is
      skipped together with its separator. */
  function Piece(items: seq<Element>, i: int, separator: string, lastSeparatorOverride: string): string
    requires 0 <= i < |items| && !items[i].NullElement?
  {
    if items[i].text == "" then ""
    else items[i].text + SeparatorAfter(i, |items|, separator, lastSeparatorOverride)
  }

  /** The concatenation of the first `k` pieces. */
  function Pieces(items: seq<Element>, k: nat, separator: string, lastSeparatorOverride: string): string
    requires k <= |items|
    requires forall i :: 0 <= i < k ==> !items[i].NullElement?
  {
    if k == 0 then ""
    else Pieces(items, k - 1, separator, lastSeparatorOverride) + Piece(items, k - 1, separator, lastSeparatorOverride)
  }

  /** The default separator, and the default (absent) last-separator override. */
  const DefaultSeparator: string := ", "
  const NoOverride: string := ""

  /** `ToStringSeparatedBy`: "" for a null list; a null element throws; a null
      override is passed as "" (both count as "null or empty"). */
  method ToStringSeparatedBy(list: Option<seq<Element>>, separator: string := DefaultSeparator, lastSeparatorOverride: string := NoOverride)
    returns (r: Result<string, Exception>)
    ensures list.None? ==> r == Ok("")
    ensures list.Some? && HasNull(list.value) ==> r == Err(NullReference)
    ensures list.Some? && !HasNull(list.value) ==>
              r == Ok(Pieces(list.value, |list.value|, separator, lastSeparatorOverride))
  {
    if list.None? {
      return Ok("");
    }
    var items := list.value;
    var ret := "";
    var i := 0;
    while i < |items|
      invariant 0 <= i <= |items|
      invariant forall j :: 0 <= j < i ==> !items[j].NullElement?
      invariant ret == Pieces(items, i, separator, lastSeparatorOverride)
    {
      if items[i].NullElement? {
        return Err(NullReference);
      }
      ghost var before := ret;
      var item := items[i].text;
      if item != "" {
        ret := ret + item;
        if i < |items| - 1 {
          if |items| > 1 && i == |items| - 2 && lastSeparatorOverride != "" {
            ret := ret + lastSeparatorOverride;
          } else {
            ret := ret + separator;
          }
        }
      }
      assert ret == before + Piece(items, i, separator, lastSeparatorOverride);
      i := i + 1;
    }
    return Ok(ret);
  }

  /** With no empty texts and no override, the pieces are the plain join. */
  lemma {:induction false} PiecesIsJoin(items: seq<Element>, k: nat, separator: string)
    requires 0 < k <= |items|
    requires !HasNull(items)
    requires forall i :: 0 <= i < |items| ==> items[i].text != ""
    ensures Pieces(items, k, separator, "") ==
              Join(Texts(items)[..k], separator) + SeparatorAfter(k - 1, |items|, separator, "")
  {
    var texts := Texts(items);
    if k > 1 {
      PiecesIsJoin(items, k - 1, separator);
      assert texts[..k][..k - 1] == texts[..k - 1];
    }
  }

  /** The full result with no empty texts and no override is the join. */
  lemma SeparatedByIsJoin(items: seq<Element>, separator: string)
    requires !HasNull(items)
    requires forall i :: 0 <= i < |items| ==> items[i].text != ""
    ensures Pieces(items, |items|, separator, "") == Join(Texts(items), separator)
  {
    if |items| > 0 {
      PiecesIsJoin(items, |items|, separator);
      assert Texts(items)[..|items|] == Texts(items);
    }
  }

  /** With a non-empty override and at least two non-empty texts, the override
      stands between the last two and the separator between the others. */
  lemma SeparatedByWithOverride(items: seq<Element>, separator: string, lastSeparatorOverride: string)
    requires |items| >= 2 && !HasNull(items)
    requires forall i :: 0 <= i < |items| ==> items[i].text != ""
    requires lastSeparatorOverride != ""
    ensures Pieces(items, |items|, separator, lastSeparatorOverride) ==
              Join(Texts(items)[..|items| - 1], separator) + lastSeparatorOverride + items[|items| - 1].text
  {
    var n := |items|;
    PiecesOverrideFront(items, n - 1, separator, lastSeparatorOverride);
  }

  lemma {:induction false} PiecesOverrideFront(items: seq<Element>, k: nat, separator: string, lastSeparatorOverride: string)
    requires 0 < k <= |items| - 1 && !HasNull(items)
    requires forall i :: 0 <= i < |items| ==> items[i].text != ""
    ensures Pieces(items, k, separator, lastSeparatorOverride) ==
              Join(Texts(items)[..k], separator) + SeparatorAfter(k - 1, |items|, separator, lastSeparatorOverride)
  {
    var texts := Texts(items);
    if k > 1 {
      PiecesOverrideFront(items, k - 1, separator, lastSeparatorOverride);
      assert texts[..k][..k - 1] == texts[..k - 1];
    }
  }

  /** An element with an empty text contributes nothing, not even a separator. */
  lemma EmptyElementSkipped(items: seq<Element>, i: int, separator: string, lastSeparatorOverride: string)
    requires 0 <= i < |items| && items[i] == Element("")
    requires forall j :: 0 <= j < i ==> !items[j].NullElement?
    ensures Pieces(items, i + 1, separator, lastSeparatorOverride) == Pieces(items, i, separator, lastSeparatorOverride)
  {
  }
}
