/**
 * What is left of `get_user_preferences` and `resize_image` once the
 * prompts and the imaging library are taken away: the width range check
 * with its default, and the height the resize asks for.
 */
module Preferences {
  import opened Wrappers
  import Arith

  const DefaultWidth: int := 100
  const MinWidth: int := 20
  const MaxWidth: int := 200

  /** One answer to the width prompt, after `int()` has parsed it. */
  datatype WidthAnswer = Blank | Number(n: int)

  /**
   * The width an answer settles on, or `None` when the prompt would ask
   * again: a blank answer means 100, a number is kept only in 20..200.
   */
  function AcceptWidth(answer: WidthAnswer): (r: Option<int>)
    ensures r.Some? <==> (answer.Blank? || MinWidth <= answer.n <= MaxWidth)
    ensures r.Some? ==> MinWidth <= r.value <= MaxWidth
    ensures answer.Blank? ==> r == Some(DefaultWidth)
    ensures answer.Number? && r.Some? ==> r.value == answer.n
  {
    var width := if answer.Blank? then DefaultWidth else answer.n;
    if MinWidth <= width <= MaxWidth then Some(width) else None
  }

  /**
   * The row count `resize_image` requests, `int(newWidth * height / width / 1.65)`,
   * taken in exact rationals: 1.65 is 33/20, and the quotient is truncated.
   */
  function ResizedHeight(newWidth: nat, width: int, height: nat): (h: nat)
    requires width >= 1
    ensures h * (width * 33) <= newWidth * height * 20 < (h + 1) * (width * 33)
  {
    var num, den := newWidth * height * 20, width * 33;
    Arith.DivBounds(num, den);
    num / den
  }

  /** A taller source never gives fewer rows. */
  lemma ResizedHeightMonotone(newWidth: nat, width: int, h1: nat, h2: nat)
    requires width >= 1 && h1 <= h2
    ensures ResizedHeight(newWidth, width, h1) <= ResizedHeight(newWidth, width, h2)
  {
    var a, b := ResizedHeight(newWidth, width, h1), ResizedHeight(newWidth, width, h2);
    var den := width * 33;
    var k := newWidth * 20;
    assert newWidth * h1 * 20 == h1 * k && newWidth * h2 * 20 == h2 * k;
    Arith.MulMonotone(h1, h2, k);
    Arith.CancelFactor(a, b + 1, den);
  }
}
