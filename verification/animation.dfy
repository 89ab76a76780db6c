/**
 What happens to the particle field after it is built: every animation frame
 advances each particle on its own (move by velocity, damp velocity, pull back
 toward the rest position), and every pointer move adds a push to the velocity
 of the particles within the effect radius of the pointer. Neither ever adds,
 removes or reorders particles, and neither touches rest positions or colours.
 */
module Animation {
  import opened Raster
  import opened FieldBuilder

  /** Share of its velocity a particle keeps from one frame to the next. */
  const Friction: real := 0.85

  /** Share of its distance to the rest position added to the velocity each frame. */
  const Attraction: real := 0.04

  /** Pointer distance, in canvas pixels, below which a particle is pushed. */
  const EffectRadius: real := 80.0

  /** A velocity increment. */
  datatype Push = Push(dvx: real, dvy: real)

  /** The push a particle at offset (dx, dy) from the pointer receives when inside the
      radius; in the component it is (cos a, sin a) * f * 6 with a = atan2(dy, dx) and
      f = (80 - distance) / 80, which is left to the caller. */
  type PushLaw = (real, real) -> Push

  /** The two inputs that change the field after it is built. */
  datatype Event = Frame | PointerMove(mouseX: real, mouseY: real)

  /** One frame for one particle. */
  function Advance(p: Particle): (q: Particle)
    ensures q.originalX == p.originalX && q.originalY == p.originalY && q.color == p.color
  {
    var x := p.x + p.vx;
    var y := p.y + p.vy;
    var vx := p.vx * Friction;
    var vy := p.vy * Friction;
    var dx := p.originalX - x;
    var dy := p.originalY - y;
    p.(x := x, y := y, vx := vx + dx * Attraction, vy := vy + dy * Attraction)
  }

  /** One frame advances every particle independently. */
  function Step(ps: seq<Particle>): seq<Particle> {
    seq(|ps|, i requires 0 <= i < |ps| => Advance(ps[i]))
  }

  /** Pointer (mouseX, mouseY) is strictly within the effect radius of position (x, y). */
  predicate WithinReach(x: real, y: real, mouseX: real, mouseY: real) {
    var dx, dy := x - mouseX, y - mouseY;
    dx * dx + dy * dy < EffectRadius * EffectRadius
  }

  /** The pointer's effect on one particle: only its velocity, and only within reach. */
  function Repel(p: Particle, mouseX: real, mouseY: real, law: PushLaw): (q: Particle)
    ensures q.x == p.x && q.y == p.y
    ensures q.originalX == p.originalX && q.originalY == p.originalY && q.color == p.color
    ensures !WithinReach(p.x, p.y, mouseX, mouseY) ==> q == p
  {
    if WithinReach(p.x, p.y, mouseX, mouseY) then
      var push := law(p.x - mouseX, p.y - mouseY);
      p.(vx := p.vx + push.dvx, vy := p.vy + push.dvy)
    else p
  }

  /** The pointer-move handler applied to the whole field. */
  function Impulse(ps: seq<Particle>, mouseX: real, mouseY: real, law: PushLaw): seq<Particle> {
    seq(|ps|, i requires 0 <= i < |ps| => Repel(ps[i], mouseX, mouseY, law))
  }

  /** The field after one event. */
  function Apply(ps: seq<Particle>, e: Event, law: PushLaw): seq<Particle> {
    match e
    case Frame => Step(ps)
    case PointerMove(mx, my) => Impulse(ps, mx, my, law)
  }

  /** The field after a sequence of events, oldest first. */
  function Run(ps: seq<Particle>, events: seq<Event>, law: PushLaw): seq<Particle>
    decreases |events|
  {
    if events == [] then ps else Run(Apply(ps, events[0], law), events[1..], law)
  }

  /** Two fields hold the same particles up to motion: same length, and particle by
      particle the same rest position and colour. */
  predicate SameAnchors(a: seq<Particle>, b: seq<Particle>) {
    |a| == |b| &&
    forall i :: 0 <= i < |a| ==>
      a[i].originalX == b[i].originalX && a[i].originalY == b[i].originalY && a[i].color == b[i].color
  }

  /** A frame moves a particle exactly when it is not at rest on its origin: a particle at
      rest stays put, and a particle that a frame leaves unchanged was at rest. */
  lemma AdvanceFixedExactlyAtRest(p: Particle)
    ensures Advance(p) == p <==> AtRest(p)
  {
    if Advance(p) == p {
      assert p.x + p.vx == p.x;
      assert p.vx == 0.0 && p.vy == 0.0;
      assert (p.originalX - p.x) * Attraction == 0.0;
    }
  }

  /** A frame depends on where a particle is only through its displacement from its rest
      position: moving the particle and its rest position by the same offset moves its
      next position by that offset and leaves its next velocity unchanged. */
  lemma AdvanceIsTranslationInvariant(p: Particle, ox: real, oy: real)
    ensures var q := p.(x := p.x + ox, y := p.y + oy,
                        originalX := p.originalX + ox, originalY := p.originalY + oy);
            Advance(q).x == Advance(p).x + ox && Advance(q).y == Advance(p).y + oy &&
            Advance(q).vx == Advance(p).vx && Advance(q).vy == Advance(p).vy
  {
  }

  /** A frame keeps the number of particles, every rest position and every colour. */
  lemma StepKeepsAnchors(ps: seq<Particle>)
    ensures SameAnchors(ps, Step(ps))
  {
  }

  /** Particles do not interact: the new state of particle i after a frame depends on
      its own old state only, whatever the rest of the field holds. */
  lemma StepIsLocal(ps: seq<Particle>, qs: seq<Particle>, i: nat)
    requires i < |ps| && i < |qs| && ps[i] == qs[i]
    ensures Step(ps)[i] == Step(qs)[i]
  {
  }

  /** The pointer handler keeps the number of particles, every position, rest position and
      colour; particles out of reach are left exactly as they were, and each particle in
      reach gains the push for its own offset from the pointer. */
  lemma ImpulseKeepsAnchors(ps: seq<Particle>, mouseX: real, mouseY: real, law: PushLaw)
    ensures SameAnchors(ps, Impulse(ps, mouseX, mouseY, law))
    ensures forall i :: 0 <= i < |ps| ==>
              Impulse(ps, mouseX, mouseY, law)[i].x == ps[i].x &&
              Impulse(ps, mouseX, mouseY, law)[i].y == ps[i].y
    ensures forall i :: 0 <= i < |ps| && !WithinReach(ps[i].x, ps[i].y, mouseX, mouseY) ==>
              Impulse(ps, mouseX, mouseY, law)[i] == ps[i]
    ensures forall i :: 0 <= i < |ps| && WithinReach(ps[i].x, ps[i].y, mouseX, mouseY) ==>
              var push := law(ps[i].x - mouseX, ps[i].y - mouseY);
              Impulse(ps, mouseX, mouseY, law)[i].vx == ps[i].vx + push.dvx &&
              Impulse(ps, mouseX, mouseY, law)[i].vy == ps[i].vy + push.dvy
  {
  }

  /** For a non-negative distance d with d * d == dx * dx + dy * dy, the component's
      test d < 80 and the model's test dx * dx + dy * dy < 80 * 80 agree. */
  lemma WithinReachIffDistance(x: real, y: real, mouseX: real, mouseY: real, d: real)
    requires 0.0 <= d
    requires d * d == (x - mouseX) * (x - mouseX) + (y - mouseY) * (y - mouseY)
    ensures WithinReach(x, y, mouseX, mouseY) <==> d < EffectRadius
  {
    if d < EffectRadius {
      MulRealMonotone(d, EffectRadius, d);
      MulRealMonotone(d, EffectRadius, EffectRadius);
    } else if EffectRadius < d {
      MulRealMonotone(EffectRadius, d, d);
      MulRealMonotone(EffectRadius, d, EffectRadius);
    }
  }

  /** `SameAnchors` chains. */
  lemma SameAnchorsTransitive(a: seq<Particle>, b: seq<Particle>, c: seq<Particle>)
    requires SameAnchors(a, b) && SameAnchors(b, c)
    ensures SameAnchors(a, c)
  {
  }

  /** Any interleaving of frames and pointer moves keeps the number of particles, every
      rest position and every colour: the field is only ever rebuilt, never edited. */
  lemma {:induction false} RunKeepsAnchors(ps: seq<Particle>, events: seq<Event>, law: PushLaw)
    ensures SameAnchors(ps, Run(ps, events, law))
    decreases |events|
  {
    if events != [] {
      var next := Apply(ps, events[0], law);
      match events[0] {
        case Frame => StepKeepsAnchors(ps);
        case PointerMove(mx, my) => ImpulseKeepsAnchors(ps, mx, my, law);
      }
      RunKeepsAnchors(next, events[1..], law);
      SameAnchorsTransitive(ps, next, Run(next, events[1..], law));
    }
  }

  /** Without pointer input a field at rest stays exactly as it is, frame after frame. */
  lemma {:induction false} FramesKeepRestingField(ps: seq<Particle>, events: seq<Event>, law: PushLaw)
    requires forall i :: 0 <= i < |ps| ==> AtRest(ps[i])
    requires forall k :: 0 <= k < |events| ==> events[k] == Frame
    ensures Run(ps, events, law) == ps
    decreases |events|
  {
    if events != [] {
      forall i | 0 <= i < |ps|
        ensures Step(ps)[i] == ps[i]
      {
        AdvanceFixedExactlyAtRest(ps[i]);
      }
      assert Apply(ps, events[0], law) == ps;
      FramesKeepRestingField(ps, events[1..], law);
    }
  }

  /** A freshly built field is at rest: the first frames draw every particle on its
      sampled position until the pointer disturbs it. */
  lemma BuiltFieldIsSettled(img: ImageData, canvas: Canvas, events: seq<Event>, law: PushLaw)
    requires img.Valid()
    requires forall k :: 0 <= k < |events| ==> events[k] == Frame
    ensures Run(Extract(img, canvas), events, law) == Extract(img, canvas)
  {
    var field := Extract(img, canvas);
    ExtractInitialState(img, canvas);
    forall i | 0 <= i < |field|
      ensures AtRest(field[i])
    {
      assert field[i] in field;
    }
    FramesKeepRestingField(field, events, law);
  }
}
