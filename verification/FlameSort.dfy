/** The counting sort that batches flame particles by opacity, and the loop that draws them
    (client/src/features/fire-map/components/FireCanvas.tsx:596-645). */
module FlameSort {

  const ALPHA_BUCKETS := 20
  const CMD_STRIDE := 6

  /** One particle's opacity as one of twenty levels: never the invisible level 0, and off by less than one level. */
  function AlphaBucket(rawAlpha: real): (bucket: int)
    requires 0.01 <= rawAlpha
    ensures 1 <= bucket <= 20
    ensures -0.025 <= rawAlpha - bucket as real / 20.0 < 0.025
            || (bucket == 1 && rawAlpha < 0.025) || (bucket == 20 && rawAlpha >= 1.025)
  {
    var level := (rawAlpha * 20.0 + 0.5).Floor;
    var capped := if level < ALPHA_BUCKETS then level else ALPHA_BUCKETS;
    if capped > 1 then capped else 1
  }

  function Opacity(bucket: int): real { bucket as real / 20.0 }

  // ---- the order the sort must produce ----

  /** The bucket of every command in the flat list. */
  function Keys(cmds: seq<int>): (keys: seq<int>) {
    seq(|cmds| / CMD_STRIDE, i requires 0 <= i < |cmds| / CMD_STRIDE => cmds[i * CMD_STRIDE])
  }

  predicate InRange(keys: seq<int>) {
    forall i :: 0 <= i < |keys| ==> 0 <= keys[i] <= ALPHA_BUCKETS
  }

  /** Bucket first, arrival second. */
  predicate Before(keys: seq<int>, i: int, j: int) {
    0 <= i < |keys| && 0 <= j < |keys| && (keys[i] < keys[j] || (keys[i] == keys[j] && i < j))
  }

  /** Each command once, lower buckets first, commands of one bucket in the order they came. */
  ghost predicate StableOrder(keys: seq<int>, order: seq<int>) {
    && (forall i :: i in order <==> 0 <= i < |keys|)
    && (forall p, q :: 0 <= p < q < |order| ==> Before(keys, order[p], order[q]))
  }

  /** There is only one such order. */
  lemma {:induction false} StableOrderIsUnique(keys: seq<int>, s: seq<int>, t: seq<int>)
    requires StableOrder(keys, s) && StableOrder(keys, t)
    ensures s == t
  {
    SamePrefix(keys, s, t, |s|);
    if |s| < |t| {
      Catches(keys, t, s, |s|);
    }
  }

  lemma {:induction false} SamePrefix(keys: seq<int>, s: seq<int>, t: seq<int>, n: nat)
    requires StableOrder(keys, s) && StableOrder(keys, t) && n <= |s|
    ensures n <= |t| && s[..n] == t[..n]
    decreases n
  {
    if n > 0 {
      SamePrefix(keys, s, t, n - 1);
      Catches(keys, s, t, n - 1);
      Catches(keys, t, s, n - 1);
    }
  }

  /** After an equal prefix, the other list continues, and not with something later. */
  lemma Catches(keys: seq<int>, s: seq<int>, t: seq<int>, n: nat)
    requires StableOrder(keys, s) && StableOrder(keys, t) && n < |s| && n <= |t| && s[..n] == t[..n]
    ensures n < |t| && (t[n] == s[n] || Before(keys, t[n], s[n]))
  {
    forall p | 0 <= p < n ensures Before(keys, t[p], s[n]) {
      assert t[p] == t[..n][p] == s[..n][p] == s[p];
    }
    assert s[n] in s;
    assert 0 <= s[n] < |keys|;
    assert s[n] in t;
    var q :| 0 <= q < |t| && t[q] == s[n];
  }

  // ---- how the sort computes it ----

  function Count(keys: seq<int>, n: nat, b: int): (c: nat)
    requires n <= |keys|
  {
    if n == 0 then 0 else Count(keys, n - 1, b) + if keys[n - 1] == b then 1 else 0
  }

  function Below(keys: seq<int>, n: nat, b: int): (c: nat)
    requires n <= |keys|
    ensures c <= n
  {
    if n == 0 then 0 else Below(keys, n - 1, b) + if keys[n - 1] < b then 1 else 0
  }

  /** The slot of command i: behind every lower bucket and behind its own bucket's earlier commands. */
  function Place(keys: seq<int>, i: nat): nat
    requires i < |keys|
  {
    Below(keys, |keys|, keys[i]) + Count(keys, i, keys[i])
  }

  function Of(keys: seq<int>, n: nat, b: int): seq<int>
    requires n <= |keys|
  {
    if n == 0 then [] else Of(keys, n - 1, b) + if keys[n - 1] == b then [n - 1] else []
  }

  function Upto(keys: seq<int>, b: nat): seq<int> {
    if b == 0 then [] else Upto(keys, b - 1) + Of(keys, |keys|, b - 1)
  }

  function Order(keys: seq<int>): seq<int> { Upto(keys, ALPHA_BUCKETS + 1) }

  lemma {:induction false} BelowStep(keys: seq<int>, n: nat, b: int)
    requires n <= |keys|
    ensures Below(keys, n, b + 1) == Below(keys, n, b) + Count(keys, n, b)
  {
    if n > 0 {
      BelowStep(keys, n - 1, b);
    }
  }

  lemma {:induction false} BelowNothing(keys: seq<int>, n: nat)
    requires n <= |keys| && InRange(keys)
    ensures Below(keys, n, 0) == 0
  {
    if n > 0 {
      BelowNothing(keys, n - 1);
    }
  }

  /** The commands of bucket b among the first n, in the order they came. */
  ghost predicate HoldsExactly(keys: seq<int>, n: nat, s: seq<int>, b: int)
    requires n <= |keys|
  {
    && (forall i :: i in s <==> 0 <= i < n && keys[i] == b)
    && (forall p, q :: 0 <= p < q < |s| ==> s[p] < s[q])
  }

  /** The commands of the buckets below b, in stable order. */
  ghost predicate HoldsBelow(keys: seq<int>, s: seq<int>, b: int) {
    && (forall i :: i in s <==> 0 <= i < |keys| && keys[i] < b)
    && (forall p, q :: 0 <= p < q < |s| ==> Before(keys, s[p], s[q]))
  }

  lemma {:induction false} OfLength(keys: seq<int>, n: nat, b: int)
    requires n <= |keys|
    ensures |Of(keys, n, b)| == Count(keys, n, b)
  {
    if n > 0 {
      OfLength(keys, n - 1, b);
    }
  }

  lemma {:induction false} OfIsAscending(keys: seq<int>, n: nat, b: int)
    requires n <= |keys|
    ensures HoldsExactly(keys, n, Of(keys, n, b), b)
  {
    hide HoldsExactly;
    NoneOf(keys, b);
    if n > 0 {
      OfIsAscending(keys, n - 1, b);
      assert Of(keys, n, b) == if keys[n - 1] == b then Of(keys, n - 1, b) + [n - 1] else Of(keys, n - 1, b);
      OneMore(keys, n - 1, Of(keys, n - 1, b), b);
    }
  }

  lemma NoneOf(keys: seq<int>, b: int)
    ensures HoldsExactly(keys, 0, [], b)
  {
  }

  lemma OneMore(keys: seq<int>, n: nat, s: seq<int>, b: int)
    requires n < |keys| && HoldsExactly(keys, n, s, b)
    ensures HoldsExactly(keys, n + 1, if keys[n] == b then s + [n] else s, b)
  {
    if keys[n] == b {
      var t := s + [n];
      assert forall i :: i in t <==> i in s || i == n;
      forall p, q | 0 <= p < q < |t| ensures t[p] < t[q] {
        assert t[p] == s[p] && s[p] in s;
      }
    }
  }

  lemma {:induction false} OfAt(keys: seq<int>, n: nat, i: nat)
    requires i < n <= |keys|
    ensures var b := keys[i]; Count(keys, i, b) < |Of(keys, n, b)| && Of(keys, n, b)[Count(keys, i, b)] == i
    decreases n
  {
    var b := keys[i];
    if i == n - 1 {
      OfLength(keys, i, b);
    } else {
      OfAt(keys, n - 1, i);
    }
  }

  lemma AppendedIsStable(keys: seq<int>, init: seq<int>, last: seq<int>, b: int)
    requires HoldsBelow(keys, init, b) && HoldsExactly(keys, |keys|, last, b)
    ensures HoldsBelow(keys, init + last, b + 1)
  {
    var s := init + last;
    assert forall i :: i in s <==> i in init || i in last;
    forall p, q | 0 <= p < q < |s| ensures Before(keys, s[p], s[q]) {
      if q < |init| {
        assert Before(keys, init[p], init[q]);
      } else if |init| <= p {
        assert last[p - |init|] in last && last[q - |init|] in last;
      } else {
        assert init[p] in init && last[q - |init|] in last;
      }
    }
  }

  lemma {:induction false} UptoLength(keys: seq<int>, b: nat)
    requires InRange(keys)
    ensures |Upto(keys, b)| == Below(keys, |keys|, b)
  {
    hide Below, Count, Of, InRange;
    BelowNothing(keys, |keys|);
    if b > 0 {
      UptoLength(keys, b - 1);
      OfLength(keys, |keys|, b - 1);
      BelowStep(keys, |keys|, b - 1);
    }
  }

  lemma NothingBelow(keys: seq<int>)
    requires InRange(keys)
    ensures HoldsBelow(keys, [], 0)
  {
  }

  lemma {:induction false} UptoIsStable(keys: seq<int>, b: nat)
    requires InRange(keys)
    ensures HoldsBelow(keys, Upto(keys, b), b)
  {
    hide HoldsBelow, HoldsExactly, Of, InRange;
    NothingBelow(keys);
    if b > 0 {
      UptoIsStable(keys, b - 1);
      OfIsAscending(keys, |keys|, b - 1);
      AppendedIsStable(keys, Upto(keys, b - 1), Of(keys, |keys|, b - 1), b - 1);
    }
  }

  lemma {:induction false} UptoAt(keys: seq<int>, b: nat, i: nat)
    requires InRange(keys) && i < |keys| && keys[i] < b
    ensures Place(keys, i) < |Upto(keys, b)| && Upto(keys, b)[Place(keys, i)] == i
    decreases b
  {
    hide Of, Below, Count;
    if keys[i] == b - 1 {
      UptoLength(keys, b - 1);
      OfAt(keys, |keys|, i);
    } else {
      UptoAt(keys, b - 1, i);
    }
  }

  /** What the sort computes is the stable order. */
  lemma OrderIsStable(keys: seq<int>)
    requires InRange(keys)
    ensures StableOrder(keys, Order(keys)) && |Order(keys)| == |keys|
  {
    hide Upto, Below;
    UptoIsStable(keys, ALPHA_BUCKETS + 1);
    UptoLength(keys, ALPHA_BUCKETS + 1);
    AllBelow(keys, |keys|);
    assert Order(keys) == Upto(keys, ALPHA_BUCKETS + 1);
  }

  lemma {:induction false} AllBelow(keys: seq<int>, n: nat)
    requires n <= |keys| && InRange(keys)
    ensures Below(keys, n, ALPHA_BUCKETS + 1) == n
  {
    if n > 0 {
      AllBelow(keys, n - 1);
    }
  }

  lemma OrderInRange(keys: seq<int>, order: seq<int>)
    requires StableOrder(keys, order)
    ensures forall k :: 0 <= k < |order| ==> 0 <= order[k] < |keys|
  {
    forall k | 0 <= k < |order| ensures 0 <= order[k] < |keys| {
      assert order[k] in order;
    }
  }

  lemma OrderAt(keys: seq<int>, i: nat)
    requires InRange(keys) && i < |keys|
    ensures Place(keys, i) < |Order(keys)| && Order(keys)[Place(keys, i)] == i
  {
    hide Upto, Place;
    UptoAt(keys, ALPHA_BUCKETS + 1, i);
    assert Order(keys) == Upto(keys, ALPHA_BUCKETS + 1);
  }

  lemma StableIsDistinct(keys: seq<int>, order: seq<int>, p: nat, q: nat)
    requires StableOrder(keys, order) && p < |order| && q < |order|
    ensures p != q ==> order[p] != order[q]
  {
    if p < q {
      assert Before(keys, order[p], order[q]);
    } else if q < p {
      assert Before(keys, order[q], order[p]);
    }
  }

  /** Filling every command's slot fills the whole list. */
  lemma PlacesFill(keys: seq<int>, indices: seq<int>)
    requires InRange(keys) && |indices| == |keys|
    requires forall i :: 0 <= i < |keys| ==> Place(keys, i) < |keys| && indices[Place(keys, i)] == i
    ensures indices == Order(keys)
  {
    hide Place, Order;
    OrderIsStable(keys);
    var order := Order(keys);
    forall p | 0 <= p < |keys| ensures indices[p] == order[p] {
      var i := order[p];
      assert i in order;
      OrderAt(keys, i);
      var q := Place(keys, i);
      assert order[q] == order[p];
      StableIsDistinct(keys, order, p, q);
    }
  }

  // ---- the canvas ----

  datatype Draw = Draw(stage: int, sprite: int, x: int, y: int, size: int, alpha: real)

  function DrawOf(cmds: seq<int>, i: int): Draw
    requires 0 <= i < |cmds| / CMD_STRIDE
  {
    var base := i * CMD_STRIDE;
    var r := cmds[base + 5];
    Draw(cmds[base + 1], cmds[base + 2], cmds[base + 3] - r, cmds[base + 4] - r, r * 2, Opacity(cmds[base]))
  }

  function DrawsOf(cmds: seq<int>, order: seq<int>): seq<Draw>
    requires forall k :: 0 <= k < |order| ==> 0 <= order[k] < |cmds| / CMD_STRIDE
  {
    seq(|order|, k requires 0 <= k < |order| => DrawOf(cmds, order[k]))
  }

  function Opacities(levels: seq<int>): seq<real> {
    seq(|levels|, k requires 0 <= k < |levels| => Opacity(levels[k]))
  }

  /** The buckets of the first n drawn commands, ascending and each once; the last is the one in force. */
  ghost predicate LevelsOf(keys: seq<int>, order: seq<int>, n: nat, levels: seq<int>)
    requires n <= |order| && forall k :: 0 <= k < |order| ==> 0 <= order[k] < |keys|
  {
    && (forall b :: b in levels <==> exists k :: 0 <= k < n && keys[order[k]] == b)
    && (forall p, q :: 0 <= p < q < |levels| ==> levels[p] < levels[q])
    && (levels == [] <==> n == 0)
    && (n > 0 ==> levels[|levels| - 1] == keys[order[n - 1]])
  }

  lemma LevelsStep(keys: seq<int>, order: seq<int>, n: nat, levels: seq<int>)
    requires StableOrder(keys, order) && n < |order|
    requires forall k :: 0 <= k < |order| ==> 0 <= order[k] < |keys|
    requires LevelsOf(keys, order, n, levels)
    ensures var ab := keys[order[n]];
            LevelsOf(keys, order, n + 1, if n > 0 && ab == keys[order[n - 1]] then levels else levels + [ab])
  {
    var ab := keys[order[n]];
    var next := if n > 0 && ab == keys[order[n - 1]] then levels else levels + [ab];
    forall b ensures b in next <==> exists k :: 0 <= k < n + 1 && keys[order[k]] == b {
      if exists k :: 0 <= k < n + 1 && keys[order[k]] == b {
        var k :| 0 <= k < n + 1 && keys[order[k]] == b;
        assert k < n ==> b in levels;
      }
      if b in next && b !in levels {
        assert keys[order[n]] == b;
      }
    }
    if n > 0 {
      assert Before(keys, order[n - 1], order[n]);
      assert forall p :: 0 <= p < |levels| ==> levels[p] <= keys[order[n - 1]];
    }
  }

  /** Every bucket in use once, lowest first. */
  ghost predicate OncePerBucket(keys: seq<int>, levels: seq<int>) {
    && (forall b :: b in levels <==> b in keys)
    && (forall p, q :: 0 <= p < q < |levels| ==> levels[p] < levels[q])
  }

  /** All commands drawn, the levels are the buckets in use. */
  lemma LevelsOfAll(keys: seq<int>, order: seq<int>, levels: seq<int>)
    requires StableOrder(keys, order) && forall k :: 0 <= k < |order| ==> 0 <= order[k] < |keys|
    requires LevelsOf(keys, order, |order|, levels)
    ensures OncePerBucket(keys, levels)
  {
    forall b ensures b in levels <==> b in keys {
      if b in keys {
        var i :| 0 <= i < |keys| && keys[i] == b;
        assert i in order;
        var k :| 0 <= k < |order| && order[k] == i;
        assert keys[order[k]] == b;
      }
    }
  }

  lemma BeforeDrawing(cmds: seq<int>, order: seq<int>)
    requires InRange(Keys(cmds)) && order == Order(Keys(cmds))
    ensures var keys := Keys(cmds);
            && StableOrder(keys, order) && |order| == |keys| == |cmds| / CMD_STRIDE
            && (forall i :: 0 <= i < |keys| ==> 0 <= keys[i] == cmds[i * CMD_STRIDE])
            && (forall k :: 0 <= k < |order| ==> 0 <= order[k] < |keys|)
            && LevelsOf(keys, order, 0, [])
            && DrawsOf(cmds, []) == [] && Opacities([]) == []
  {
    OrderIsStable(Keys(cmds));
    OrderInRange(Keys(cmds), order);
  }

  lemma DrawsStep(cmds: seq<int>, order: seq<int>, n: nat)
    requires n < |order| && forall k :: 0 <= k < |order| ==> 0 <= order[k] < |cmds| / CMD_STRIDE
    ensures DrawsOf(cmds, order[..n + 1]) == DrawsOf(cmds, order[..n]) + [DrawOf(cmds, order[n])]
  {
  }

  lemma OpacitiesStep(levels: seq<int>, ab: int)
    ensures Opacities(levels + [ab]) == Opacities(levels) + [Opacity(ab)]
  {
  }

  /** A particle as it is pushed. */
  datatype Particle = Particle(rawAlpha: real, stage: int, sprite: int, x: int, y: int, r: int)

  /** The command list holds these particles, six numbers each. */
  ghost predicate Encodes(cmds: seq<int>, pushed: seq<Particle>) {
    && |cmds| == 6 * |pushed|
    && forall i :: 0 <= i < |pushed| ==>
         && pushed[i].rawAlpha >= 0.01 && cmds[6 * i] == AlphaBucket(pushed[i].rawAlpha)
         && cmds[6 * i + 1] == pushed[i].stage && cmds[6 * i + 2] == pushed[i].sprite
         && cmds[6 * i + 3] == pushed[i].x && cmds[6 * i + 4] == pushed[i].y && cmds[6 * i + 5] == pushed[i].r
  }

  /** Every particle is drawn once, at its own place and size and under its own opacity level, lower levels first and
      particles of one level in the order they were pushed. */
  ghost predicate DrawnInOrder(pushed: seq<Particle>, order: seq<int>, drawn: seq<Draw>) {
    && |drawn| == |order| && (forall i :: i in order <==> 0 <= i < |pushed|)
    && (forall i :: 0 <= i < |pushed| ==> pushed[i].rawAlpha >= 0.01)
    && (forall k :: 0 <= k < |order| ==>
          && 0 <= order[k] < |pushed| && var p := pushed[order[k]];
          drawn[k] == Draw(p.stage, p.sprite, p.x - p.r, p.y - p.r, 2 * p.r, AlphaBucket(p.rawAlpha) as real / 20.0))
    && (forall k, l :: 0 <= k < l < |order| ==>
          && 0 <= order[k] < |pushed| && 0 <= order[l] < |pushed|
          && var a, b := AlphaBucket(pushed[order[k]].rawAlpha), AlphaBucket(pushed[order[l]].rawAlpha);
          a < b || (a == b && order[k] < order[l]))
  }

  lemma EncodesOneMore(cmds: seq<int>, pushed: seq<Particle>, p: Particle)
    requires Encodes(cmds, pushed) && p.rawAlpha >= 0.01
    ensures Encodes(cmds + [AlphaBucket(p.rawAlpha), p.stage, p.sprite, p.x, p.y, p.r], pushed + [p])
  {
    hide AlphaBucket;
  }

  lemma NothingEncoded()
    ensures Encodes([], [])
  {
  }

  lemma EncodedKeys(cmds: seq<int>, pushed: seq<Particle>)
    requires Encodes(cmds, pushed)
    ensures |Keys(cmds)| == |pushed|
    ensures forall i :: 0 <= i < |pushed| ==>
              pushed[i].rawAlpha >= 0.01 && Keys(cmds)[i] == AlphaBucket(pushed[i].rawAlpha)
  {
    hide AlphaBucket;
  }

  lemma EncodedDraw(cmds: seq<int>, pushed: seq<Particle>, i: nat)
    requires Encodes(cmds, pushed) && i < |pushed|
    ensures i < |cmds| / CMD_STRIDE && pushed[i].rawAlpha >= 0.01
    ensures var p := pushed[i];
            DrawOf(cmds, i)
            == Draw(p.stage, p.sprite, p.x - p.r, p.y - p.r, 2 * p.r, AlphaBucket(p.rawAlpha) as real / 20.0)
  {
    hide AlphaBucket;
  }

  lemma DrawsAreOrdered(cmds: seq<int>, pushed: seq<Particle>, order: seq<int>)
    requires Encodes(cmds, pushed) && StableOrder(Keys(cmds), order)
    requires forall k :: 0 <= k < |order| ==> 0 <= order[k] < |cmds| / CMD_STRIDE
    ensures DrawnInOrder(pushed, order, DrawsOf(cmds, order))
  {
    hide AlphaBucket, DrawOf, Encodes, Keys;
    EncodedKeys(cmds, pushed);
    forall k | 0 <= k < |order| ensures 0 <= order[k] < |pushed| {
      assert order[k] in order;
    }
    forall k | 0 <= k < |order|
      ensures var p := pushed[order[k]];
              && p.rawAlpha >= 0.01
              && DrawsOf(cmds, order)[k]
                 == Draw(p.stage, p.sprite, p.x - p.r, p.y - p.r, 2 * p.r, AlphaBucket(p.rawAlpha) as real / 20.0)
    {
      EncodedDraw(cmds, pushed, order[k]);
    }
  }

  class Canvas {
    var globalAlpha: real
    var drawn: seq<Draw>       // each with the alpha in force
    var alphas: seq<real>    // every value globalAlpha was set to

    constructor (alpha: real)
      ensures globalAlpha == alpha && drawn == [] && alphas == []
    {
      globalAlpha, drawn, alphas := alpha, [], [];
    }

    method SetAlpha(alpha: real)
      modifies this
      ensures globalAlpha == alpha && drawn == old(drawn) && alphas == old(alphas) + [alpha]
    {
      globalAlpha := alpha;
      alphas := alphas + [alpha];
    }

    method DrawImage(stage: int, sprite: int, x: int, y: int, size: int)
      modifies this
      ensures globalAlpha == old(globalAlpha) && alphas == old(alphas)
      ensures drawn == old(drawn) + [Draw(stage, sprite, x, y, size, globalAlpha)]
    {
      drawn := drawn + [Draw(stage, sprite, x, y, size, globalAlpha)];
    }
  }

  /** The command list of one frame and the buffers that frames reuse, whatever they hold. */
  class FlameBatch {
    var cmds: seq<int>
    var indices: seq<int>
    const counts: array<int>
    const placed: array<int>
    const offsets: array<int>
    ghost var pushed: seq<Particle>   // since the last frame

    ghost predicate Valid()
      reads this
    {
      && Encodes(cmds, pushed)
      && counts.Length == placed.Length == offsets.Length == ALPHA_BUCKETS + 1
      && counts != placed && placed != offsets && counts != offsets
      && |cmds| % CMD_STRIDE == 0 && InRange(Keys(cmds))
    }

    constructor ()
      ensures Valid() && cmds == [] && pushed == [] && fresh(counts) && fresh(placed) && fresh(offsets)
    {
      cmds, indices, pushed := [], [], [];
      counts := new int[ALPHA_BUCKETS + 1](_ => 0);
      placed := new int[ALPHA_BUCKETS + 1](_ => 0);
      offsets := new int[ALPHA_BUCKETS + 1](_ => 0);
    }

    method Push(rawAlpha: real, stage: int, sprite: int, x: int, y: int, r: int)
      requires Valid() && 0.01 <= rawAlpha
      modifies this`cmds, this`pushed
      ensures Valid() && Keys(cmds) == old(Keys(cmds)) + [AlphaBucket(rawAlpha)]
      ensures cmds == old(cmds) + [AlphaBucket(rawAlpha), stage, sprite, x, y, r]
      ensures pushed == old(pushed) + [Particle(rawAlpha, stage, sprite, x, y, r)]
    {
      EncodesOneMore(cmds, pushed, Particle(rawAlpha, stage, sprite, x, y, r));
      pushed := pushed + [Particle(rawAlpha, stage, sprite, x, y, r)];
      cmds := cmds + [AlphaBucket(rawAlpha), stage, sprite, x, y, r];
      assert Keys(cmds) == old(Keys(cmds)) + [AlphaBucket(rawAlpha)];
    }

    method CountBuckets(cmdCount: nat)
      requires Valid() && cmdCount == |Keys(cmds)|
      modifies counts
      ensures forall b :: 0 <= b <= ALPHA_BUCKETS ==> counts[b] == Count(Keys(cmds), cmdCount, b)
    {
      ghost var keys := Keys(cmds);
      for b := 0 to ALPHA_BUCKETS + 1
        invariant forall c :: 0 <= c < b ==> counts[c] == 0
      {
        counts[b] := 0;
      }
      for i := 0 to cmdCount
        invariant forall b :: 0 <= b <= ALPHA_BUCKETS ==> counts[b] == Count(keys, i, b)
      {
        var ab := cmds[i * CMD_STRIDE];
        assert ab == keys[i];
        counts[ab] := counts[ab] + 1;
      }
    }

    method BuildOffsets(cmdCount: nat)
      requires Valid() && cmdCount == |Keys(cmds)|
      requires forall b :: 0 <= b <= ALPHA_BUCKETS ==> counts[b] == Count(Keys(cmds), cmdCount, b)
      modifies offsets
      ensures forall b :: 0 <= b <= ALPHA_BUCKETS ==> offsets[b] == Below(Keys(cmds), cmdCount, b)
    {
      ghost var keys := Keys(cmds);
      BelowNothing(keys, cmdCount);
      offsets[0] := 0;
      for b := 1 to ALPHA_BUCKETS + 1
        invariant forall c :: 0 <= c < b ==> offsets[c] == Below(keys, cmdCount, c)
      {
        BelowStep(keys, cmdCount, b - 1);
        offsets[b] := offsets[b - 1] + counts[b - 1];
      }
    }

    method ResizeIndices(cmdCount: nat)
      modifies this`indices
      ensures |indices| == cmdCount
    {
      while |indices| < cmdCount {
        indices := indices + [0];
      }
      indices := indices[..cmdCount];
    }

    method PlaceIndices(cmdCount: nat)
      requires Valid() && cmdCount == |Keys(cmds)| == |indices|
      requires forall b :: 0 <= b <= ALPHA_BUCKETS ==> offsets[b] == Below(Keys(cmds), cmdCount, b)
      modifies this`indices, placed
      ensures indices == Order(Keys(cmds))
    {
      ghost var keys := Keys(cmds);
      OrderIsStable(keys);
      for b := 0 to ALPHA_BUCKETS + 1
        invariant |indices| == cmdCount && forall c :: 0 <= c < b ==> placed[c] == 0
      {
        placed[b] := 0;
      }
      for i := 0 to cmdCount
        invariant |indices| == cmdCount
        invariant forall b :: 0 <= b <= ALPHA_BUCKETS ==> placed[b] == Count(keys, i, b)
        invariant forall j :: 0 <= j < i ==> Place(keys, j) < cmdCount && indices[Place(keys, j)] == j
      {
        var ab := cmds[i * CMD_STRIDE];
        assert ab == keys[i];
        OrderAt(keys, i);
        forall j | 0 <= j < i ensures Place(keys, j) != Place(keys, i) {
          OrderAt(keys, j);
        }
        indices := indices[offsets[ab] + placed[ab] := i];
        placed[ab] := placed[ab] + 1;
      }
      PlacesFill(keys, indices);
    }

    /** Draws the sorted commands, setting the alpha only when the bucket changes. */
    method DrawSorted(cmdCount: nat, canvas: Canvas) returns (ghost levels: seq<int>)
      requires Valid() && cmdCount == |Keys(cmds)| && indices == Order(Keys(cmds))
      modifies canvas
      ensures |Order(Keys(cmds))| == cmdCount
      ensures forall k :: 0 <= k < cmdCount ==> 0 <= indices[k] < cmdCount
      ensures canvas.drawn == old(canvas.drawn) + DrawsOf(cmds, indices)
      ensures canvas.alphas == old(canvas.alphas) + Opacities(levels)
      ensures OncePerBucket(Keys(cmds), levels)
    {
      hide Order, LevelsOf, StableOrder, Keys, DrawsOf, Opacities, OncePerBucket, InRange;
      ghost var keys := Keys(cmds);
      BeforeDrawing(cmds, indices);
      assert indices[..0] == [];
      levels := [];
      var prevBucket := -1;
      for ii := 0 to cmdCount
        invariant canvas.drawn == old(canvas.drawn) + DrawsOf(cmds, indices[..ii])
        invariant canvas.alphas == old(canvas.alphas) + Opacities(levels)
        invariant prevBucket == if ii == 0 then -1 else keys[indices[ii - 1]]
        invariant ii > 0 ==> canvas.globalAlpha == Opacity(prevBucket)
        invariant LevelsOf(keys, indices, ii, levels)
      {
        LevelsStep(keys, indices, ii, levels);
        DrawsStep(cmds, indices, ii);
        var base := indices[ii] * CMD_STRIDE;
        var ab := cmds[base];
        var si := cmds[base + 1];
        var bucket := cmds[base + 2];
        var px := cmds[base + 3];
        var py := cmds[base + 4];
        var pr := cmds[base + 5];
        if ab != prevBucket {
          canvas.SetAlpha(ab as real / 20.0);
          OpacitiesStep(levels, ab);
          levels := levels + [ab];
          prevBucket := ab;
        }
        var d := pr * 2;
        canvas.DrawImage(si, bucket, px - pr, py - pr, d);
      }
      assert indices[..cmdCount] == indices;
      LevelsOfAll(keys, indices, levels);
    }

    /** One frame: whatever the reused buffers held, the commands are drawn in the stable order of their buckets,
        each under its own alpha, which is set once per bucket in use; the list ends empty. */
    method Render(canvas: Canvas) returns (ghost order: seq<int>, ghost levels: seq<int>)
      requires Valid()
      modifies this`cmds, this`indices, this`pushed, counts, placed, offsets, canvas
      ensures Valid() && cmds == [] && pushed == []
      ensures StableOrder(old(Keys(cmds)), order)
      ensures |canvas.drawn| == |old(canvas.drawn)| + |order| && old(canvas.drawn) <= canvas.drawn
      ensures DrawnInOrder(old(pushed), order, canvas.drawn[|old(canvas.drawn)|..])
      ensures canvas.alphas == old(canvas.alphas) + Opacities(levels)
      ensures OncePerBucket(old(Keys(cmds)), levels)
    {
      hide Order, StableOrder, DrawnInOrder, Encodes;
      var cmdCount := |cmds| / CMD_STRIDE;
      order, levels := Order(Keys(cmds)), [];
      OrderIsStable(Keys(cmds));
      OrderInRange(Keys(cmds), order);
      if cmdCount > 0 {
        CountBuckets(cmdCount);
        BuildOffsets(cmdCount);
        ResizeIndices(cmdCount);
        PlaceIndices(cmdCount);
        levels := DrawSorted(cmdCount, canvas);
      }
      DrawsAreOrdered(cmds, pushed, order);
      assert canvas.drawn == old(canvas.drawn) + DrawsOf(cmds, order);
      assert canvas.drawn[|old(canvas.drawn)|..] == DrawsOf(cmds, order);
      NothingEncoded();
      cmds, pushed := [], [];
    }
  }
}
