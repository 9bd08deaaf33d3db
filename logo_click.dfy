/**
 * The logo easter egg: a click handler on `.logo-imagem` counts clicks in a
 * captured `clickCount`; when the count reaches 3 it fires the confetti and
 * starts again from 0. The handler is installed only when the page has the
 * logo. The confetti itself (random particles, CSS animation) is not part
 * of this model: a click only reports whether it fires.
 */
module LogoEasterEgg {

  /** One click from count `c`: the new count and whether confetti fires.
      From a count in 0..2 the count advances modulo 3 and the confetti
      fires exactly when it wraps to 0. */
  function Click(c: int): (r: (int, bool))
    ensures 0 <= c <= 2 ==> 0 <= r.0 <= 2 && r.0 == (c + 1) % 3 && (r.1 <==> r.0 == 0)
  {
    var next := c + 1;
    if next >= 3 then (0, true) else (next, false)
  }

  /** Starting from count `c`, the count after `n` clicks and, for each of
      them in order, whether it fired. */
  function Clicks(c: int, n: nat): (r: (int, seq<bool>))
    ensures |r.1| == n
    decreases n
  {
    if n == 0 then (c, [])
    else
      var (c1, fired) := Click(c);
      var (cn, rest) := Clicks(c1, n - 1);
      (cn, [fired] + rest)
  }

  /** How many of the recorded clicks fired. */
  function FireCount(fired: seq<bool>): nat {
    if fired == [] then 0 else (if fired[0] then 1 else 0) + FireCount(fired[1..])
  }

  /** From a count `c` in 0..2, the count after `n` more clicks is back in
      0..2 and equals `(c + n) % 3`, and the click at index `k` (the
      `k + 1`-th) fires exactly when `c + k + 1` is a multiple of 3. */
  lemma {:induction false} ClicksFrom(c: int, n: nat)
    requires 0 <= c <= 2
    ensures var (cn, fired) := Clicks(c, n);
      && 0 <= cn <= 2
      && cn == (c + n) % 3
      && forall k :: 0 <= k < n ==> (fired[k] <==> (c + k + 1) % 3 == 0)
    decreases n
  {
    if n > 0 {
      var (c1, f) := Click(c);
      ClicksFrom(c1, n - 1);
      var (cn, rest) := Clicks(c1, n - 1);
      var fired := Clicks(c, n).1;
      assert fired == [f] + rest;
      assert c1 == (c + 1) % 3;
      forall k | 1 <= k < n ensures fired[k] <==> (c + k + 1) % 3 == 0 {
        assert fired[k] == rest[k - 1];
        assert (c1 + (k - 1) + 1) % 3 == (c + k + 1) % 3;
      }
    }
  }

  /** From a fresh page, confetti fires on clicks 3, 6, 9, ... (indices 2,
      5, 8, ...) and on no others. */
  lemma EveryThirdClickFires(n: nat)
    ensures var (cn, fired) := Clicks(0, n);
      && cn == n % 3
      && forall k :: 0 <= k < n ==> (fired[k] <==> (k + 1) % 3 == 0)
  {
    ClicksFrom(0, n);
  }

  /** `n` clicks from a fresh page fire the confetti `n / 3` times. */
  lemma FireCountFromZero(n: nat)
    ensures FireCount(Clicks(0, n).1) == n / 3
  {
    FireCountFrom(0, n);
  }

  lemma {:induction false} FireCountFrom(c: int, n: nat)
    requires 0 <= c <= 2
    ensures FireCount(Clicks(c, n).1) == (c + n) / 3
    decreases n
  {
    if n > 0 {
      var (c1, f) := Click(c);
      FireCountFrom(c1, n - 1);
      var (cn, rest) := Clicks(c1, n - 1);
      assert Clicks(c, n).1 == [f] + rest;
      assert ([f] + rest)[1..] == rest;
    }
  }

  /** The handler's captured state. */
  class LogoClickCounter {
    var clickCount: int

    ghost predicate Valid()
      reads this
    {
      0 <= clickCount <= 2
    }

    constructor ()
      ensures Valid() && clickCount == 0
    {
      clickCount := 0;
    }

    /** The click listener: `fire` reports that `criarConfetti()` is called. */
    method OnClick() returns (fire: bool)
      requires Valid()
      modifies this
      ensures Valid()
      ensures fire <==> old(clickCount) == 2
      ensures clickCount == (old(clickCount) + 1) % 3
      ensures (clickCount, fire) == Click(old(clickCount))
    {
      clickCount := clickCount + 1;
      fire := false;
      if clickCount >= 3 {
        fire := true;
        clickCount := 0;
      }
    }
  }
}
