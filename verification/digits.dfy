/**
 * Zero-padded decimal fields, as Python's `f"{n:0{w}d}"` prints them, and
 * strings built from a row of such fields with fixed separators (the shape of
 * every ISO-8601 stamp in the model). The central fact is `RenderOrder`:
 * comparing two rendered rows as strings is comparing their numbers
 * field by field.
 */
module Digits {
  import opened LexOrder

  function Pow10(w: nat): (p: nat)
    ensures p >= 1
  {
    if w == 0 then 1 else 10 * Pow10(w - 1)
  }

  function DigitChar(d: nat): (c: char)
    requires d < 10
    ensures '0' <= c <= '9'
  {
    (48 + d) as char
  }

  /** The last `w` decimal digits of `n`, most significant first. */
  function Pad(n: nat, w: nat): (r: string)
    ensures |r| == w
    ensures forall i :: 0 <= i < w ==> '0' <= r[i] <= '9'
  {
    if w == 0 then [] else Pad(n / 10, w - 1) + [DigitChar(n % 10)]
  }

  /** For numbers that fit in `w` digits the padded text orders like the numbers. */
  lemma {:induction false} PadOrder(a: nat, b: nat, w: nat)
    requires a < Pow10(w) && b < Pow10(w)
    ensures Below(Pad(a, w), Pad(b, w)) <==> a < b
    ensures Pad(a, w) == Pad(b, w) <==> a == b
  {
    if w == 0 {
      BelowIrreflexive([]);
    } else {
      assert a == 10 * (a / 10) + a % 10;
      assert b == 10 * (b / 10) + b % 10;
      assert a / 10 < Pow10(w - 1);
      assert b / 10 < Pow10(w - 1);
      PadOrder(a / 10, b / 10, w - 1);
      var da, db := [DigitChar(a % 10)], [DigitChar(b % 10)];
      BelowAppend(Pad(a / 10, w - 1), da, Pad(b / 10, w - 1), db);
      AppendEqual(Pad(a / 10, w - 1), da, Pad(b / 10, w - 1), db);
      assert Below(da, db) <==> a % 10 < b % 10;
      assert da == db <==> a % 10 == b % 10;
    }
  }

  /** One field of a stamp: a separator followed by a zero-padded number. */
  datatype Field = Field(sep: string, width: nat)

  /** Every value fits in the width of its field. */
  predicate Fits(vals: seq<nat>, fields: seq<Field>)
  {
    |vals| == |fields| && forall i :: 0 <= i < |vals| ==> vals[i] < Pow10(fields[i].width)
  }

  /** Total length of a rendered row of fields. */
  function Width(fields: seq<Field>): nat
  {
    if |fields| == 0 then 0 else |fields[0].sep| + fields[0].width + Width(fields[1..])
  }

  function Render(vals: seq<nat>, fields: seq<Field>): (r: string)
    requires |vals| == |fields|
    ensures |r| == Width(fields)
  {
    if |vals| == 0 then ""
    else (fields[0].sep + Pad(vals[0], fields[0].width)) + Render(vals[1..], fields[1..])
  }

  /** Lexicographic order on rows of numbers of equal length. */
  predicate LexLess(xs: seq<nat>, ys: seq<nat>)
    requires |xs| == |ys|
  {
    |xs| > 0 && (xs[0] < ys[0] || (xs[0] == ys[0] && LexLess(xs[1..], ys[1..])))
  }

  /** One rendered field orders like its number. */
  lemma FieldOrder(x: nat, y: nat, f: Field)
    requires x < Pow10(f.width) && y < Pow10(f.width)
    ensures Below(f.sep + Pad(x, f.width), f.sep + Pad(y, f.width)) <==> x < y
    ensures f.sep + Pad(x, f.width) == f.sep + Pad(y, f.width) <==> x == y
  {
    PadOrder(x, y, f.width);
    BelowCommonPrefix(f.sep, Pad(x, f.width), Pad(y, f.width));
    AppendEqual(f.sep, Pad(x, f.width), f.sep, Pad(y, f.width));
  }

  lemma FitsTail(vals: seq<nat>, fields: seq<Field>)
    requires Fits(vals, fields) && |vals| > 0
    ensures Fits(vals[1..], fields[1..])
  {
    forall i | 0 <= i < |vals| - 1
      ensures vals[1..][i] < Pow10(fields[1..][i].width)
    {
      assert vals[1..][i] == vals[i + 1];
    }
  }

  /** Non-empty rows are equal exactly when their heads and tails are. */
  lemma SplitEqual(xs: seq<nat>, ys: seq<nat>)
    requires |xs| == |ys| > 0
    ensures xs == ys <==> xs[0] == ys[0] && xs[1..] == ys[1..]
  {
    assert xs == [xs[0]] + xs[1..];
    assert ys == [ys[0]] + ys[1..];
  }

  /**
   * Rendered rows compare as strings exactly as their numbers compare
   * lexicographically, and two rows render alike only when their numbers agree.
   */
  lemma {:induction false} RenderOrder(xs: seq<nat>, ys: seq<nat>, fields: seq<Field>)
    requires Fits(xs, fields) && Fits(ys, fields)
    ensures Below(Render(xs, fields), Render(ys, fields)) <==> LexLess(xs, ys)
    ensures Render(xs, fields) == Render(ys, fields) <==> xs == ys
    decreases |xs|
  {
    if |xs| == 0 {
      BelowIrreflexive("");
    } else {
      var f := fields[0];
      var hx, hy := f.sep + Pad(xs[0], f.width), f.sep + Pad(ys[0], f.width);
      var tx, ty := Render(xs[1..], fields[1..]), Render(ys[1..], fields[1..]);
      assert Render(xs, fields) == hx + tx;
      assert Render(ys, fields) == hy + ty;
      FitsTail(xs, fields);
      FitsTail(ys, fields);
      RenderOrder(xs[1..], ys[1..], fields[1..]);
      FieldOrder(xs[0], ys[0], f);
      BelowAppend(hx, tx, hy, ty);
      AppendEqual(hx, tx, hy, ty);
      SplitEqual(xs, ys);
    }
  }

  /** A field added at the end of a row is rendered after the row. */
  lemma {:induction false} RenderAppend(xs: seq<nat>, fields: seq<Field>, v: nat, f: Field)
    requires |xs| == |fields|
    ensures Render(xs + [v], fields + [f]) == Render(xs, fields) + (f.sep + Pad(v, f.width))
    decreases |xs|
  {
    if |xs| == 0 {
      assert xs + [v] == [v];
      assert fields + [f] == [f];
    } else {
      assert (xs + [v])[1..] == xs[1..] + [v];
      assert (fields + [f])[1..] == fields[1..] + [f];
      RenderAppend(xs[1..], fields[1..], v, f);
    }
  }

  /** A common last number does not change the lexicographic order. */
  lemma {:induction false} LexLessCommonLast(xs: seq<nat>, ys: seq<nat>, c: nat)
    requires |xs| == |ys|
    ensures LexLess(xs + [c], ys + [c]) <==> LexLess(xs, ys)
    decreases |xs|
  {
    if |xs| > 0 {
      assert (xs + [c])[1..] == xs[1..] + [c];
      assert (ys + [c])[1..] == ys[1..] + [c];
      LexLessCommonLast(xs[1..], ys[1..], c);
    }
  }

  lemma {:induction false} LexLessIrreflexive(xs: seq<nat>)
    ensures !LexLess(xs, xs)
    decreases |xs|
  {
    if |xs| > 0 {
      LexLessIrreflexive(xs[1..]);
    }
  }

  /** A common tail does not change the lexicographic order. */
  lemma {:induction false} LexLessCommonTail(xs: seq<nat>, ys: seq<nat>, zs: seq<nat>)
    requires |xs| == |ys|
    ensures LexLess(xs + zs, ys + zs) <==> LexLess(xs, ys)
    decreases |xs|
  {
    if |xs| == 0 {
      assert xs + zs == zs && ys + zs == zs;
      LexLessIrreflexive(zs);
    } else {
      assert (xs + zs)[1..] == xs[1..] + zs;
      assert (ys + zs)[1..] == ys[1..] + zs;
      LexLessCommonTail(xs[1..], ys[1..], zs);
    }
  }

  /** Rows that agree up to their last number compare on that number. */
  lemma {:induction false} LexLessLast(xs: seq<nat>, a: nat, b: nat)
    ensures LexLess(xs + [a], xs + [b]) <==> a < b
    decreases |xs|
  {
    if |xs| > 0 {
      assert (xs + [a])[1..] == xs[1..] + [a];
      assert (xs + [b])[1..] == xs[1..] + [b];
      LexLessLast(xs[1..], a, b);
    } else {
      assert xs + [a] == [a] && xs + [b] == [b];
    }
  }

  /** The separators of `fields` with every `target` replaced. */
  function ReplaceSeps(fields: seq<Field>, target: char, replacement: char): (r: seq<Field>)
    ensures |r| == |fields|
    ensures forall i :: 0 <= i < |r| ==> r[i].width == fields[i].width
  {
    seq(|fields|, i requires 0 <= i < |fields| => Field(Replace(fields[i].sep, target, replacement), fields[i].width))
  }

  /** Replacing a non-digit in a rendered row only touches its separators. */
  lemma {:induction false} ReplaceRender(vals: seq<nat>, fields: seq<Field>, target: char, replacement: char)
    requires |vals| == |fields|
    requires !('0' <= target <= '9')
    ensures Replace(Render(vals, fields), target, replacement) == Render(vals, ReplaceSeps(fields, target, replacement))
    decreases |vals|
  {
    if |vals| > 0 {
      var f := fields[0];
      var p := Pad(vals[0], f.width);
      ReplaceAppend(f.sep + p, Render(vals[1..], fields[1..]), target, replacement);
      ReplaceAppend(f.sep, p, target, replacement);
      assert Replace(p, target, replacement) == p;
      ReplaceRender(vals[1..], fields[1..], target, replacement);
      assert ReplaceSeps(fields, target, replacement)[1..] == ReplaceSeps(fields[1..], target, replacement);
    }
  }

  lemma FitsReplaceSeps(vals: seq<nat>, fields: seq<Field>, target: char, replacement: char)
    requires Fits(vals, fields)
    ensures Fits(vals, ReplaceSeps(fields, target, replacement))
  {
  }
}
