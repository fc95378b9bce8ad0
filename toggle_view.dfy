/**
 A model of the state behind `ToggleView`: the day/night flag, the transition
 progress that cross-fades the sun and the moon, the tap handler that flips
 both and reports the new flag, and the placement of the four stars.
 `CGFloat.random(in:)` is supplied as an oracle `sample`, where `sample(n)` is
 the point drawn on the n-th trip through the body of the `repeat` loop.
 Distances are compared squared, over `real`.
 */
module Toggle {
  import opened HexColor

  datatype Point = Point(x: real, y: real)

  /** The two `@State` values of the view. */
  datatype ToggleState = ToggleState(isOn: bool, transitionProgress: real)

  /** A colour of the background gradient: a named system colour or a parsed one. */
  datatype Paint = SystemBlue | SystemWhite | Srgb(rgba: Rgba)

  /** One star as `createStars` lays it out. */
  datatype StarSprite = StarSprite(position: Point, opacity: real, delay: real)

  /** The two colour strings of the night gradient. */
  const NightTop := "151535"
  const NightBottom := "2A2A72"

  /** Where stars are parked while the toggle is on. */
  const HiddenStar := Point(-100.0, -100.0)

  /** The number of stars `createStars` asks for. */
  const StarCount := 4

  /** The box `CGFloat.random(in: -17...(-7))` and `CGFloat.random(in: -15...15)` draw from. */
  predicate InStarRegion(p: Point) {
    -17.0 <= p.x <= -7.0 && -15.0 <= p.y <= 15.0
  }

  function SquaredDistance(p: Point, q: Point): (d: real)
    ensures d >= 0.0
    ensures p == q ==> d == 0.0
  {
    (p.x - q.x) * (p.x - q.x) + (p.y - q.y) * (p.y - q.y)
  }

  /** `sqrt(dx² + dy²) < limit`, stated without the square root. */
  predicate TooClose(p: Point, q: Point, limit: real)
    requires limit >= 0.0
  {
    SquaredDistance(p, q) < limit * limit
  }

  /** No point of `ps` is too close to `p`. */
  predicate FarFromAll(ps: seq<Point>, p: Point, limit: real)
    requires limit >= 0.0
  {
    forall i | 0 <= i < |ps| :: !TooClose(ps[i], p, limit)
  }

  /** Every two points of `ps` are at least `limit` apart. */
  predicate Spaced(ps: seq<Point>, limit: real)
    requires limit >= 0.0
  {
    forall i, j | 0 <= i < j < |ps| :: !TooClose(ps[i], ps[j], limit)
  }

  // ---------------------------------------------------------------------------
  // No room for spaced stars

  lemma SquareBound(a: real, b: real)
    requires -b <= a <= b
    ensures a * a <= b * b
  {
    assert b * b - a * a == (b - a) * (b + a);
    assert (b - a) * (b + a) >= 0.0;
  }

  /** Two points of the star box at least 20 apart differ by more than 17 in
      y: the box is only 10 wide, so dx² <= 100 and dy² >= 300 > 17². */
  lemma FarApartVertically(p: Point, q: Point)
    requires InStarRegion(p) && InStarRegion(q) && !TooClose(p, q, 20.0)
    ensures p.y - q.y > 17.0 || q.y - p.y > 17.0
  {
    SquareBound(p.x - q.x, 10.0);
    if -17.0 <= p.y - q.y <= 17.0 {
      SquareBound(p.y - q.y, 17.0);
    }
  }

  /** Three points of the star box are never pairwise 20 apart: they would
      span more than 34 in y, and the box is 30 tall. */
  lemma NoThreeSpaced(p: Point, q: Point, r: Point)
    requires InStarRegion(p) && InStarRegion(q) && InStarRegion(r)
    ensures !Spaced([p, q, r], 20.0)
  {
    var t := [p, q, r];
    if Spaced(t, 20.0) {
      assert !TooClose(t[0], t[1], 20.0) && !TooClose(t[0], t[2], 20.0) && !TooClose(t[1], t[2], 20.0);
      FarApartVertically(p, q);
      FarApartVertically(p, r);
      FarApartVertically(q, r);
    }
  }

  /** At most two points of the star box can be pairwise `minDistance` apart. */
  lemma AtMostTwoSpaced(ps: seq<Point>)
    requires forall i | 0 <= i < |ps| :: InStarRegion(ps[i])
    ensures Spaced(ps, 20.0) ==> |ps| <= 2
  {
    if |ps| >= 3 {
      var t := [ps[0], ps[1], ps[2]];
      assert t == ps[..3];
      NoThreeSpaced(ps[0], ps[1], ps[2]);
    }
  }

  // ---------------------------------------------------------------------------
  // The tap state machine on values

  /** `transitionProgress` is at the end point that matches `isOn`. */
  predicate Settled(s: ToggleState) {
    s.transitionProgress == if s.isOn then 0.0 else 1.0
  }

  /** The state the view starts in. */
  function Initial(): (s: ToggleState)
    ensures s.isOn && Settled(s)
  {
    ToggleState(true, 0.0)
  }

  /** The state after `isOn.toggle()` and
      `transitionProgress = isOn ? 0.0 : 1.0`. */
  function Tapped(s: ToggleState): (t: ToggleState)
    ensures t.isOn == !s.isOn
    ensures Settled(t)
  {
    var on := !s.isOn;
    ToggleState(on, if on then 0.0 else 1.0)
  }

  /** The state after `n` taps. */
  function Taps(s: ToggleState, n: nat): ToggleState {
    if n == 0 then s else Tapped(Taps(s, n - 1))
  }

  /** Two taps give back the settled state they started from. */
  lemma TapTwiceRestores(s: ToggleState)
    requires Settled(s)
    ensures Tapped(Tapped(s)) == s
  {
  }

  /** After any number of taps the state is settled, and it is the starting
      state exactly when the number of taps is even. */
  lemma {:induction false} TapsAlternate(s: ToggleState, n: nat)
    requires Settled(s)
    ensures Settled(Taps(s, n))
    ensures Taps(s, n) == if n % 2 == 0 then s else Tapped(s)
  {
    if n > 0 {
      TapsAlternate(s, n - 1);
      if n % 2 == 0 { TapTwiceRestores(s); }
    }
  }

  /** From the initial state, `isOn` holds after exactly the even numbers of taps. */
  lemma {:induction false} OnAfterEvenTaps(n: nat)
    ensures Taps(Initial(), n).isOn <==> n % 2 == 0
    ensures Settled(Taps(Initial(), n))
  {
    TapsAlternate(Initial(), n);
  }

  /** The values the completion handler receives over `n` taps from `s`. */
  function Reports(s: ToggleState, n: nat): (r: seq<bool>)
    ensures |r| == n
  {
    if n == 0 then [] else Reports(s, n - 1) + [Taps(s, n).isOn]
  }

  /** The handler sees the flag alternate, starting with the negation of the
      flag before the first tap. */
  lemma {:induction false} ReportsAlternate(s: ToggleState, n: nat, k: nat)
    requires Settled(s) && k < n
    ensures Reports(s, n)[k] == (if k % 2 == 0 then !s.isOn else s.isOn)
  {
    if k < n - 1 {
      ReportsAlternate(s, n - 1, k);
    } else {
      TapsAlternate(s, n);
    }
  }

  // ---------------------------------------------------------------------------
  // Star placement on values

  /** The position `generateStarPositions` gives star `i` when the
      distance check accepts every candidate. */
  function StarAt(isOn: bool, sample: nat -> Point, i: nat): (p: Point)
    ensures isOn ==> p == HiddenStar
    ensures (forall n: nat {:trigger sample(n)} :: InStarRegion(sample(n))) && !isOn ==> InStarRegion(p)
  {
    if isOn then HiddenStar else sample(i)
  }

  function ConstantSample(p: Point): nat -> Point {
    (n: nat) => p
  }

  /** For every oracle that draws from the star box, the first three stars
      are not spaced: some two of them are closer than `minDistance`. */
  lemma AsWrittenStarsNeverSpaced(sample: nat -> Point)
    requires forall n: nat :: InStarRegion(sample(n))
    ensures !Spaced([StarAt(false, sample, 0), StarAt(false, sample, 1), StarAt(false, sample, 2)], 20.0)
  {
    NoThreeSpaced(sample(0), sample(1), sample(2));
  }

  /** Nothing keeps two generated stars apart: an oracle that draws the
      same point twice puts two stars on top of each other. */
  lemma AsWrittenAcceptsCoincidentStars()
    ensures var sample := ConstantSample(Point(-12.0, 0.0));
      (forall n: nat :: InStarRegion(sample(n))) &&
      StarAt(false, sample, 0) == StarAt(false, sample, 1) &&
      TooClose(StarAt(false, sample, 0), StarAt(false, sample, 1), 20.0)
  {
  }

  /** The documented placement on a finite list of candidates: scan them in
      order and accept each one that is far enough from those accepted so
      far, until `count` are accepted. */
  function Greedy(candidates: seq<Point>, count: nat, limit: real, accepted: seq<Point>): seq<Point>
    requires limit >= 0.0
    decreases |candidates|
  {
    if candidates == [] || |accepted| >= count then accepted
    else if FarFromAll(accepted, candidates[0], limit) then
      Greedy(candidates[1..], count, limit, accepted + [candidates[0]])
    else
      Greedy(candidates[1..], count, limit, accepted)
  }

  /** One step of the scan: the candidate at `next` is accepted exactly when
      it is far enough from those accepted so far. */
  lemma GreedyStep(cs: seq<Point>, next: nat, count: nat, limit: real, accepted: seq<Point>)
    requires limit >= 0.0 && next < |cs| && |accepted| < count
    ensures Greedy(cs[next..], count, limit, accepted) ==
      Greedy(cs[next + 1..], count, limit,
        if FarFromAll(accepted, cs[next], limit) then accepted + [cs[next]] else accepted)
  {
    assert cs[next..][1..] == cs[next + 1..];
  }

  /** The scan stops when the candidates run out or `count` are accepted. */
  lemma GreedyDone(cs: seq<Point>, next: nat, count: nat, limit: real, accepted: seq<Point>)
    requires limit >= 0.0 && next <= |cs| && (next == |cs| || |accepted| >= count)
    ensures Greedy(cs[next..], count, limit, accepted) == accepted
  {
  }

  /** The stars accepted first stay at the front. */
  lemma {:induction false} GreedyExtends(cs: seq<Point>, count: nat, limit: real, accepted: seq<Point>)
    requires limit >= 0.0
    ensures var r := Greedy(cs, count, limit, accepted);
      |accepted| <= |r| && r[..|accepted|] == accepted
    decreases |cs|
  {
    if cs != [] && |accepted| < count {
      var next := if FarFromAll(accepted, cs[0], limit) then accepted + [cs[0]] else accepted;
      GreedyExtends(cs[1..], count, limit, next);
      var r := Greedy(cs[1..], count, limit, next);
      assert r[..|accepted|] == r[..|next|][..|accepted|];
    }
  }

  /** The scan accepts no more than `count` stars. */
  lemma {:induction false} GreedyBounded(cs: seq<Point>, count: nat, limit: real, accepted: seq<Point>)
    requires limit >= 0.0 && |accepted| <= count
    ensures |Greedy(cs, count, limit, accepted)| <= count
    decreases |cs|
  {
    if cs != [] && |accepted| < count {
      var next := if FarFromAll(accepted, cs[0], limit) then accepted + [cs[0]] else accepted;
      GreedyBounded(cs[1..], count, limit, next);
    }
  }

  /** Every two accepted stars are at least `limit` apart. */
  lemma {:induction false} GreedySpaced(cs: seq<Point>, count: nat, limit: real, accepted: seq<Point>)
    requires limit >= 0.0 && Spaced(accepted, limit)
    ensures Spaced(Greedy(cs, count, limit, accepted), limit)
    decreases |cs|
  {
    if cs != [] && |accepted| < count {
      if FarFromAll(accepted, cs[0], limit) {
        var next := accepted + [cs[0]];
        assert forall i | 0 <= i < |accepted| :: next[i] == accepted[i];
        GreedySpaced(cs[1..], count, limit, next);
      } else {
        GreedySpaced(cs[1..], count, limit, accepted);
      }
    }
  }

  /** Every accepted star is one of the candidates (or was accepted before). */
  lemma {:induction false} GreedyFromCandidates(cs: seq<Point>, count: nat, limit: real, accepted: seq<Point>)
    requires limit >= 0.0
    ensures forall x | x in Greedy(cs, count, limit, accepted) :: x in accepted || x in cs
    decreases |cs|
  {
    if cs != [] && |accepted| < count {
      var next := if FarFromAll(accepted, cs[0], limit) then accepted + [cs[0]] else accepted;
      GreedyFromCandidates(cs[1..], count, limit, next);
      assert cs == [cs[0]] + cs[1..];
      assert forall x | x in next :: x in accepted || x == cs[0];
    }
  }

  /** When fewer than `count` stars are accepted, every candidate was
      accepted or is too close to an accepted star. */
  lemma {:induction false} GreedyMaximal(cs: seq<Point>, count: nat, limit: real, accepted: seq<Point>)
    requires limit >= 0.0
    ensures var r := Greedy(cs, count, limit, accepted);
      |r| < count ==> forall k | 0 <= k < |cs| :: cs[k] in r || !FarFromAll(r, cs[k], limit)
    decreases |cs|
  {
    if cs != [] && |accepted| < count {
      var c := cs[0];
      var next := if FarFromAll(accepted, c, limit) then accepted + [c] else accepted;
      GreedyMaximal(cs[1..], count, limit, next);
      GreedyExtends(cs[1..], count, limit, next);
      var r := Greedy(cs[1..], count, limit, next);
      if |r| < count {
        forall k | 0 <= k < |cs|
          ensures cs[k] in r || !FarFromAll(r, cs[k], limit)
        {
          if k == 0 {
            if FarFromAll(accepted, c, limit) {
              assert r[|accepted|] == r[..|next|][|accepted|] == c;
            } else {
              var i :| 0 <= i < |accepted| && TooClose(accepted[i], c, limit);
              assert r[i] == r[..|accepted|][i] == accepted[i];
            }
          } else {
            assert cs[k] == cs[1..][k - 1];
          }
        }
      }
    }
  }

  // ---------------------------------------------------------------------------
  // The view

  class ToggleView {
    /** `@State private var isOn`. */
    var isOn: bool
    /** `@State private var transitionProgress`. */
    var transitionProgress: real
    /** `private var starPositions`: set to empty and never appended to. */
    var starPositions: seq<Point>
    /** Whether a completion handler was passed to `init`. */
    const hasCompletionHandler: bool
    /** `private let minDistance`. */
    const minDistance: real := 20.0
    /** Every value passed to the completion handler so far, oldest first. */
    ghost var reported: seq<bool>
    /** The number of taps since the view was created. */
    ghost var taps: nat

    function State(): ToggleState
      reads this
    {
      ToggleState(isOn, transitionProgress)
    }

    /** The state is the one `taps` taps lead to from the initial state, and
        the log holds exactly what the handler was given over those taps. */
    ghost predicate Valid()
      reads this
    {
      Settled(State()) && starPositions == [] &&
      State() == Taps(Initial(), taps) &&
      reported == if hasCompletionHandler then Reports(Initial(), taps) else []
    }

    constructor (hasCompletionHandler: bool)
      ensures Valid()
      ensures State() == Initial() && isOn && transitionProgress == 0.0
      ensures this.hasCompletionHandler == hasCompletionHandler && reported == [] && taps == 0
    {
      isOn := true;
      transitionProgress := 0.0;
      starPositions := [];
      this.hasCompletionHandler := hasCompletionHandler;
      reported := [];
      taps := 0;
    }

    /** The `onTapGesture` action. */
    method Tap()
      modifies this
      ensures State() == Tapped(old(State()))
      ensures reported == old(reported) + if hasCompletionHandler then [isOn] else []
      ensures starPositions == old(starPositions)
      ensures taps == old(taps) + 1
      ensures old(Valid()) ==> Valid()
    {
      isOn := !isOn;
      transitionProgress := if isOn then 0.0 else 1.0;
      if hasCompletionHandler {
        reported := reported + [isOn];
      }
      taps := taps + 1;
    }

    /** `gradientColors`. */
    function GradientColors(): (g: seq<Paint>)
      reads this
      ensures |g| == 2
      ensures isOn ==> g == [SystemBlue, SystemWhite]
      ensures !isOn ==> g == [Srgb(Rgba(21.0 / 255.0, 21.0 / 255.0, 53.0 / 255.0, 1.0)),
                              Srgb(Rgba(42.0 / 255.0, 42.0 / 255.0, 114.0 / 255.0, 1.0))]
    {
      if isOn then [SystemBlue, SystemWhite]
      else
        NightGradientOpaque();
        [Srgb(ColorFromHex(NightTop)), Srgb(ColorFromHex(NightBottom))]
    }

    /** `.opacity(1 - transitionProgress)` on the sun. */
    function SunOpacity(): (o: real)
      reads this
      ensures o + MoonOpacity() == 1.0
    {
      1.0 - transitionProgress
    }

    /** `.opacity(transitionProgress)` on the moon. */
    function MoonOpacity(): (o: real)
      reads this
      ensures Valid() ==> (o == 0.0 <==> isOn) && (o == 1.0 <==> !isOn)
    {
      transitionProgress
    }

    /** `.opacity(isOn ? 0 : 1)` on each star. */
    function StarOpacity(): (o: real)
      reads this
      ensures Valid() ==> o == MoonOpacity()
      ensures o == 0.0 || o == 1.0
    {
      if isOn then 0.0 else 1.0
    }

    /** The horizontal offsets of the sun and the moon: both glyphs sit left
        of centre in the day and right of it at night. */
    function GlyphOffsets(): (offsets: (real, real))
      reads this
      ensures offsets.0 < 0.0 <==> isOn
      ensures offsets.1 < 0.0 <==> isOn
    {
      (if isOn then -13.0 else 15.0, if isOn then -10.0 else 10.0)
    }

    /** `isValidPosition(x:y:)`: true when no point of `starPositions` is
        closer than `minDistance` to `(x, y)`. */
    method IsValidPosition(x: real, y: real) returns (valid: bool)
      ensures valid <==> FarFromAll(starPositions, Point(x, y), minDistance)
      ensures Valid() ==> valid
    {
      for i := 0 to |starPositions|
        invariant forall k | 0 <= k < i :: !TooClose(starPositions[k], Point(x, y), minDistance)
      {
        if TooClose(starPositions[i], Point(x, y), minDistance) {
          return false;
        }
      }
      return true;
    }

    /** `generateStarPositions(count:)`. Since `starPositions` stays empty,
        every `repeat` loop accepts its first candidate, so star `i` is
        candidate `i`. */
    method GenerateStarPositions(count: nat, sample: nat -> Point) returns (positions: seq<Point>)
      requires Valid()
      ensures |positions| == count
      ensures forall i | 0 <= i < count :: positions[i] == StarAt(isOn, sample, i)
      ensures isOn ==> forall i | 0 <= i < count :: positions[i] == HiddenStar
      ensures !isOn ==> forall i | 0 <= i < count :: positions[i] == sample(i)
      ensures (forall n: nat :: InStarRegion(sample(n))) ==>
        !isOn ==> forall i | 0 <= i < count :: InStarRegion(positions[i])
      ensures (forall n: nat :: InStarRegion(sample(n))) ==>
        !isOn && count >= 3 ==> !Spaced(positions, minDistance)
    {
      positions := [];
      var draws: nat := 0;
      for star := 0 to count
        invariant |positions| == star
        invariant draws == if isOn then 0 else star
        invariant forall i | 0 <= i < star :: positions[i] == StarAt(isOn, sample, i)
      {
        var p := HiddenStar;
        var accepted := false;
        // repeat { ... } while !isValidPosition(x: x, y: y)
        while !accepted
          invariant !accepted ==> draws == if isOn then 0 else star
          invariant accepted ==> p == StarAt(isOn, sample, star)
          invariant accepted ==> draws == if isOn then 0 else star + 1
          decreases if accepted then 0 else 1
        {
          if isOn {
            p := HiddenStar;
          } else {
            p := sample(draws);
            draws := draws + 1;
          }
          accepted := IsValidPosition(p.x, p.y);
        }
        positions := positions + [p];
      }
      if (forall n: nat :: InStarRegion(sample(n))) && !isOn {
        AtMostTwoSpaced(positions);
      }
    }

    /** `createStars()`: four stars at the generated positions, all with the
        star opacity, the `i`-th one delayed by `i * 0.1` seconds. */
    method CreateStars(sample: nat -> Point) returns (stars: seq<StarSprite>)
      requires Valid()
      ensures |stars| == StarCount
      ensures forall i | 0 <= i < StarCount ::
        stars[i] == StarSprite(StarAt(isOn, sample, i), StarOpacity(), i as real * 0.1)
    {
      var positions := GenerateStarPositions(StarCount, sample);
      stars := [];
      for index := 0 to StarCount
        invariant |stars| == index
        invariant forall i | 0 <= i < index ::
          stars[i] == StarSprite(positions[i], StarOpacity(), i as real * 0.1)
      {
        stars := stars + [StarSprite(positions[index], StarOpacity(), index as real * 0.1)];
      }
    }

    /** The placement the doc comment of `generateStarPositions` describes:
        each candidate is checked against the stars accepted so far. While
        the toggle is on every star is parked at the same sentinel, so the
        sentinels are returned without a check (a check would reject them
        forever). `candidates` is a finite prefix of the random stream. */
    method GenerateSpacedStarPositions(count: nat, candidates: seq<Point>) returns (positions: seq<Point>)
      ensures isOn ==> |positions| == count && forall i | 0 <= i < count :: positions[i] == HiddenStar
      ensures !isOn ==> |positions| <= count && Spaced(positions, minDistance)
      ensures !isOn ==> forall i | 0 <= i < |positions| :: positions[i] in candidates
      ensures !isOn && |positions| < count ==>
        forall k | 0 <= k < |candidates| :: candidates[k] in positions || !FarFromAll(positions, candidates[k], minDistance)
      ensures (forall k | 0 <= k < |candidates| :: InStarRegion(candidates[k])) ==>
        !isOn ==> |positions| <= 2
      ensures !isOn ==> positions == Greedy(candidates, count, minDistance, [])
    {
      positions := [];
      if isOn {
        for star := 0 to count
          invariant |positions| == star
          invariant forall i | 0 <= i < star :: positions[i] == HiddenStar
        {
          positions := positions + [HiddenStar];
        }
        return;
      }
      var next := 0;
      while next < |candidates| && |positions| < count
        invariant 0 <= next <= |candidates|
        invariant Greedy(candidates, count, minDistance, []) ==
          Greedy(candidates[next..], count, minDistance, positions)
      {
        GreedyStep(candidates, next, count, minDistance, positions);
        var p := candidates[next];
        if FarFromAll(positions, p, minDistance) {
          positions := positions + [p];
        }
        next := next + 1;
      }
      GreedyDone(candidates, next, count, minDistance, positions);
      GreedyBounded(candidates, count, minDistance, []);
      GreedySpaced(candidates, count, minDistance, []);
      GreedyFromCandidates(candidates, count, minDistance, []);
      GreedyMaximal(candidates, count, minDistance, []);
      if forall k | 0 <= k < |candidates| :: InStarRegion(candidates[k]) {
        forall i | 0 <= i < |positions|
          ensures InStarRegion(positions[i])
        {
          assert positions[i] in candidates;
        }
        AtMostTwoSpaced(positions);
      }
    }
  }

  /** In every valid view, `isOn` holds exactly after an even number of taps,
      and a handler has been given `false`, `true`, `false`, ... one value
      per tap. */
  lemma ViewAfterTaps(v: ToggleView)
    requires v.Valid()
    ensures v.isOn <==> v.taps % 2 == 0
    ensures v.hasCompletionHandler ==> |v.reported| == v.taps
    ensures v.hasCompletionHandler ==>
      forall k | 0 <= k < v.taps :: v.reported[k] == (k % 2 == 1)
  {
    OnAfterEvenTaps(v.taps);
    forall k | 0 <= k < v.taps
      ensures Reports(Initial(), v.taps)[k] == (k % 2 == 1)
    {
      ReportsAlternate(Initial(), v.taps, k);
    }
  }

  /** Both night gradient literals have six digits, so both are opaque. */
  lemma NightGradientOpaque()
    ensures ColorFromHex(NightTop) == Rgba(21.0 / 255.0, 21.0 / 255.0, 53.0 / 255.0, 1.0)
    ensures ColorFromHex(NightBottom) == Rgba(42.0 / 255.0, 42.0 / 255.0, 114.0 / 255.0, 1.0)
  {
    NightTopColour();
    NightBottomColour();
  }

  lemma NightTopColour()
    ensures ColorFromHex(NightTop) == Rgba(21.0 / 255.0, 21.0 / 255.0, 53.0 / 255.0, 1.0)
  {
    assert ByteAt(NightTop, 0) == 0x15 && ByteAt(NightTop, 2) == 0x15 && ByteAt(NightTop, 4) == 0x35;
    SixDigits(NightTop);
  }

  lemma NightBottomColour()
    ensures ColorFromHex(NightBottom) == Rgba(42.0 / 255.0, 42.0 / 255.0, 114.0 / 255.0, 1.0)
  {
    assert ByteAt(NightBottom, 0) == 0x2A && ByteAt(NightBottom, 2) == 0x2A;
    assert ByteAt(NightBottom, 4) == 0x72;
    SixDigits(NightBottom);
  }

  /** The correction of the fallback changes nothing the view draws. */
  lemma NightGradientUnaffectedByFallback()
    ensures ColorFromHexWhiteDefault(NightTop) == ColorFromHex(NightTop)
    ensures ColorFromHexWhiteDefault(NightBottom) == ColorFromHex(NightBottom)
  {
    TrimHexDigits(NightTop);
    TrimHexDigits(NightBottom);
  }
}
