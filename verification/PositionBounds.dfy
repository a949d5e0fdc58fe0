/**
 Where a draw's vertices lie, in clip space and on the screen: boxes folded over a vertex stream and
 merged over instances (src/cpp/commands_frame.cpp).  Finite floats are reals here.
 */
module PositionBounds {
  import opened Basics
  import opened Arithmetic

  datatype Float = Real(value: real) | NotFinite

  datatype Box = Box(min: seq<real>, max: seq<real>)

  predicate Sized(box: Option<Box>, dim: nat) {
    box.Some? ==> |box.value.min| == |box.value.max| == dim
  }

  datatype Totals = Totals(vertices: nat, finite: nat, projected: nat, clip: Option<Box>, ndc: Option<Box>)

  type Bounds = b: Totals | Sized(b.clip, 4) && Sized(b.ndc, 3) witness Totals(0, 0, 0, None, None)

  type Vertex = v: seq<Float> | |v| == 4 witness [NotFinite, NotFinite, NotFinite, NotFinite]

  const EMPTY: Bounds := Totals(0, 0, 0, None, None)

  // ------------------------------------------------------------------ boxes

  function Low(a: seq<real>, b: seq<real>): seq<real>
    requires |a| == |b|
  {
    seq(|a|, c requires 0 <= c < |a| => if b[c] < a[c] then b[c] else a[c])
  }

  function High(a: seq<real>, b: seq<real>): seq<real>
    requires |a| == |b|
  {
    seq(|a|, c requires 0 <= c < |a| => if b[c] > a[c] then b[c] else a[c])
  }

  function Hull(a: Option<Box>, b: Option<Box>, dim: nat): (hull: Option<Box>)
    requires Sized(a, dim) && Sized(b, dim)
    ensures Sized(hull, dim)
  {
    if a.None? then b
    else if b.None? then a
    else Some(Box(Low(a.value.min, b.value.min), High(a.value.max, b.value.max)))
  }

  function PointBox(p: seq<real>): Option<Box> {
    Some(Box(p, p))
  }

  lemma HullLaws(a: Option<Box>, b: Option<Box>, c: Option<Box>, dim: nat)
    requires Sized(a, dim) && Sized(b, dim) && Sized(c, dim)
    ensures Hull(a, b, dim) == Hull(b, a, dim)
    ensures Hull(Hull(a, b, dim), c, dim) == Hull(a, Hull(b, c, dim), dim)
  {
    if a.Some? && b.Some? {
      Commutes(a.value.min, b.value.min);
      Commutes(a.value.max, b.value.max);
      if c.Some? {
        Associates(a.value.min, b.value.min, c.value.min);
        Associates(a.value.max, b.value.max, c.value.max);
      }
    }
  }

  lemma Commutes(a: seq<real>, b: seq<real>)
    requires |a| == |b|
    ensures Low(a, b) == Low(b, a) && High(a, b) == High(b, a)
  {
  }

  lemma Associates(a: seq<real>, b: seq<real>, c: seq<real>)
    requires |a| == |b| == |c|
    ensures Low(Low(a, b), c) == Low(a, Low(b, c)) && High(High(a, b), c) == High(a, High(b, c))
  {
  }

  // ------------------------------------------------------------------ bounds

  function Merge(a: Bounds, b: Bounds): Bounds {
    Totals(a.vertices + b.vertices, a.finite + b.finite, a.projected + b.projected,
           Hull(a.clip, b.clip, 4), Hull(a.ndc, b.ndc, 3))
  }

  predicate AllFinite(v: Vertex) {
    forall c | 0 <= c < 4 :: v[c].Real?
  }

  function Clip(v: Vertex): (p: seq<real>)
    requires AllFinite(v)
    ensures |p| == 4
  {
    [v[0].value, v[1].value, v[2].value, v[3].value]
  }

  /** In front of the eye. */
  predicate Projects(v: Vertex) {
    AllFinite(v) && v[3].value > 0.0
  }

  function Ndc(v: Vertex): (p: seq<real>)
    requires Projects(v)
    ensures |p| == 3
  {
    [v[0].value / v[3].value, v[1].value / v[3].value, v[2].value / v[3].value]
  }

  function One(v: Vertex): Bounds {
    Totals(1, if AllFinite(v) then 1 else 0, if Projects(v) then 1 else 0,
           if AllFinite(v) then PointBox(Clip(v)) else None, if Projects(v) then PointBox(Ndc(v)) else None)
  }

  function BoundsOf(vertices: seq<Vertex>): Bounds {
    if vertices == [] then EMPTY
    else Merge(BoundsOf(vertices[..|vertices| - 1]), One(vertices[|vertices| - 1]))
  }

  /** Merging is commutative and associative, and nothing comes of merging empty bounds. */
  lemma MergeLaws(a: Bounds, b: Bounds, c: Bounds)
    ensures Merge(a, b) == Merge(b, a)
    ensures Merge(Merge(a, b), c) == Merge(a, Merge(b, c))
    ensures Merge(a, EMPTY) == a && Merge(EMPTY, a) == a
  {
    HullLaws(a.clip, b.clip, c.clip, 4);
    HullLaws(a.ndc, b.ndc, c.ndc, 3);
  }

  /** Folding two streams one after the other is merging what each folds to. */
  lemma {:induction false} FoldMerges(xs: seq<Vertex>, ys: seq<Vertex>)
    ensures BoundsOf(xs + ys) == Merge(BoundsOf(xs), BoundsOf(ys))
  {
    if ys == [] {
      assert xs + ys == xs;
      Unit(BoundsOf(xs));
    } else {
      var init, last := ys[..|ys| - 1], ys[|ys| - 1];
      assert ys == init + [last] && xs + ys == (xs + init) + [last];
      FoldMerges(xs, init);
      BoundsNext(xs + init, last);
      BoundsNext(init, last);
      Assoc(BoundsOf(xs), BoundsOf(init), One(last));
    }
  }

  lemma BoundsNext(vertices: seq<Vertex>, v: Vertex)
    ensures BoundsOf(vertices + [v]) == Merge(BoundsOf(vertices), One(v))
  {
    assert (vertices + [v])[..|vertices|] == vertices;
  }

  lemma Assoc(a: Bounds, b: Bounds, c: Bounds)
    ensures Merge(Merge(a, b), c) == Merge(a, Merge(b, c))
  {
    MergeLaws(a, b, c);
  }

  lemma Unit(a: Bounds)
    ensures Merge(a, EMPTY) == a && Merge(EMPTY, a) == a
  {
  }

  // ------------------------------------------------------------------ what the bounds mean

  function ClipPoints(vertices: seq<Vertex>): (points: seq<seq<real>>)
    ensures forall p | p in points :: |p| == 4
  {
    if vertices == [] then []
    else
      var last := vertices[|vertices| - 1];
      ClipPoints(vertices[..|vertices| - 1]) + if AllFinite(last) then [Clip(last)] else []
  }

  function NdcPoints(vertices: seq<Vertex>): (points: seq<seq<real>>)
    ensures forall p | p in points :: |p| == 3
  {
    if vertices == [] then []
    else
      var last := vertices[|vertices| - 1];
      NdcPoints(vertices[..|vertices| - 1]) + if Projects(last) then [Ndc(last)] else []
  }

  /** `low` and `high` bound component `c` of every point and are each met by one. */
  predicate Tight(low: real, high: real, points: seq<seq<real>>, dim: nat, c: nat)
    requires c < dim && forall p | p in points :: |p| == dim
  {
    (forall p | p in points :: low <= p[c] <= high)
    && (exists p :: p in points && p[c] == low) && (exists p :: p in points && p[c] == high)
  }

  /** The smallest box around the points; no box around none. */
  predicate Tightest(box: Option<Box>, points: seq<seq<real>>, dim: nat)
    requires Sized(box, dim) && forall p | p in points :: |p| == dim
  {
    if points == [] then box.None?
    else box.Some? && forall c | 0 <= c < dim :: Tight(box.value.min[c], box.value.max[c], points, dim, c)
  }

  lemma TightNext(box: Option<Box>, points: seq<seq<real>>, p: seq<real>, dim: nat)
    requires |p| == dim && Sized(box, dim) && (forall q | q in points :: |q| == dim) && Tightest(box, points, dim)
    ensures Tightest(Hull(box, PointBox(p), dim), points + [p], dim)
  {
    var all, hull := points + [p], Hull(box, PointBox(p), dim).value;
    assert p in all;
    forall c | 0 <= c < dim ensures Tight(hull.min[c], hull.max[c], all, dim, c) {
      if points != [] {
        assert Tight(box.value.min[c], box.value.max[c], points, dim, c);
        var low :| low in points && low[c] == box.value.min[c];
        var high :| high in points && high[c] == box.value.max[c];
        assert low in all && high in all;
      }
    }
  }

  lemma {:induction false} ClipIsTightest(vertices: seq<Vertex>)
    ensures BoundsOf(vertices).finite == |ClipPoints(vertices)|
    ensures Tightest(BoundsOf(vertices).clip, ClipPoints(vertices), 4)
  {
    if vertices != [] {
      var init, last := vertices[..|vertices| - 1], vertices[|vertices| - 1];
      ClipIsTightest(init);
      if AllFinite(last) {
        TightNext(BoundsOf(init).clip, ClipPoints(init), Clip(last), 4);
      }
    }
  }

  lemma {:induction false} NdcIsTightest(vertices: seq<Vertex>)
    ensures BoundsOf(vertices).projected == |NdcPoints(vertices)|
    ensures Tightest(BoundsOf(vertices).ndc, NdcPoints(vertices), 3)
  {
    if vertices != [] {
      var init, last := vertices[..|vertices| - 1], vertices[|vertices| - 1];
      NdcIsTightest(init);
      if Projects(last) {
        TightNext(BoundsOf(init).ndc, NdcPoints(init), Ndc(last), 3);
      }
    }
  }

  lemma {:induction false} CountsNest(vertices: seq<Vertex>)
    ensures BoundsOf(vertices).projected <= BoundsOf(vertices).finite <= BoundsOf(vertices).vertices == |vertices|
  {
    if vertices != [] {
      CountsNest(vertices[..|vertices| - 1]);
    }
  }

  /** The counts count, each kind within the one before, and the boxes are the tightest around their vertices. */
  lemma BoundsAreTightest(vertices: seq<Vertex>)
    ensures var b := BoundsOf(vertices);
            b.vertices == |vertices| && b.finite == |ClipPoints(vertices)| && b.projected == |NdcPoints(vertices)|
            && b.projected <= b.finite <= b.vertices
            && Tightest(b.clip, ClipPoints(vertices), 4) && Tightest(b.ndc, NdcPoints(vertices), 3)
  {
    ClipIsTightest(vertices);
    NdcIsTightest(vertices);
    CountsNest(vertices);
  }

  // ------------------------------------------------------------------ the stream

  predicate Fits(size: nat, stride: nat, v: nat) {
    stride >= 16 && v * stride + 16 <= size
  }

  function VertexAt(data: seq<byte>, at: nat, float: seq<byte> -> Float): Vertex
    requires at + 16 <= |data|
  {
    [float(data[at..at + 4]), float(data[at + 4..at + 8]), float(data[at + 8..at + 12]), float(data[at + 12..at + 16])]
  }

  /** The vertices of a stream, as many of the `count` as the bytes hold. */
  function Stream(data: seq<byte>, stride: nat, count: nat, float: seq<byte> -> Float): seq<Vertex> {
    if count == 0 then []
    else
      Stream(data, stride, count - 1, float)
      + if Fits(|data|, stride, count - 1) then [VertexAt(data, (count - 1) * stride, float)] else []
  }

  lemma {:induction false} StreamStops(data: seq<byte>, stride: nat, v: nat, count: nat, float: seq<byte> -> Float)
    requires v <= count && !Fits(|data|, stride, v)
    ensures Stream(data, stride, count, float) == Stream(data, stride, v, float)
  {
    if v < count {
      StreamStops(data, stride, v, count - 1, float);
      Product(v, stride, count - 1, stride);
    }
  }

  lemma StreamNext(was: Bounds, data: seq<byte>, stride: nat, v: nat, float: seq<byte> -> Float)
    requires Fits(|data|, stride, v)
    ensures Merge(Merge(was, BoundsOf(Stream(data, stride, v, float))), One(VertexAt(data, v * stride, float)))
            == Merge(was, BoundsOf(Stream(data, stride, v + 1, float)))
  {
    var before, vertex := Stream(data, stride, v, float), VertexAt(data, v * stride, float);
    BoundsNext(before, vertex);
    Assoc(was, BoundsOf(before), One(vertex));
  }

  class PositionBounds {
    var vertices: nat
    var finite: nat
    var projected: nat
    var any: bool
    var clipMin: seq<real>
    var clipMax: seq<real>
    var isProjected: bool
    var ndcMin: seq<real>
    var ndcMax: seq<real>

    constructor ()
      ensures Valid() && Value() == EMPTY
    {
      vertices, finite, projected, any, isProjected := 0, 0, 0, false, false;
      clipMin, clipMax := [0.0, 0.0, 0.0, 0.0], [0.0, 0.0, 0.0, 0.0];
      ndcMin, ndcMax := [0.0, 0.0, 0.0], [0.0, 0.0, 0.0];
    }

    ghost predicate Valid()
      reads this
    {
      |clipMin| == |clipMax| == 4 && |ndcMin| == |ndcMax| == 3
    }

    function Value(): Bounds
      reads this
      requires Valid()
    {
      Totals(vertices, finite, projected,
             if any then Some(Box(clipMin, clipMax)) else None, if isProjected then Some(Box(ndcMin, ndcMax)) else None)
    }

    method AddClip(p: seq<real>)
      requires Valid() && |p| == 4
      modifies this`any, this`clipMin, this`clipMax
      ensures Valid() && Value() == old(Value()).(clip := Hull(old(Value()).clip, PointBox(p), 4))
    {
      if !any {
        clipMin, clipMax, any := p, p, true;
      } else {
        clipMin, clipMax := Widen(clipMin, clipMax, p, p);
      }
    }

    method AddNdc(p: seq<real>)
      requires Valid() && |p| == 3
      modifies this`isProjected, this`ndcMin, this`ndcMax
      ensures Valid() && Value() == old(Value()).(ndc := Hull(old(Value()).ndc, PointBox(p), 3))
    {
      if !isProjected {
        ndcMin, ndcMax, isProjected := p, p, true;
      } else {
        ndcMin, ndcMax := Widen(ndcMin, ndcMax, p, p);
      }
    }

    method AddVertex(v: Vertex)
      requires Valid()
      modifies this
      ensures Valid() && Value() == Merge(old(Value()), One(v))
    {
      vertices := vertices + 1;
      if !AllFinite(v) {
        return;
      }
      finite := finite + 1;
      AddClip(Clip(v));
      if v[3].value > 0.0 {
        AddNdc(Ndc(v));
        projected := projected + 1;
      }
    }

    /** Folds one stream in, up to the first vertex that the bytes do not hold. */
    method PositionBoundsAdd(data: seq<byte>, stride: nat, count: nat, float: seq<byte> -> Float)
      requires Valid()
      modifies this
      ensures Valid() && Value() == Merge(old(Value()), BoundsOf(Stream(data, stride, count, float)))
    {
      ghost var was := Value();
      Unit(was);
      for v: nat := 0 to count
        invariant Valid() && Value() == Merge(was, BoundsOf(Stream(data, stride, v, float)))
      {
        Product(0, 0, v, stride);
        var offset := v * stride;
        if stride < 16 || offset + 16 > |data| {
          StreamStops(data, stride, v, count, float);
          return;
        }
        var vertex := VertexAt(data, offset, float);
        StreamNext(was, data, stride, v, float);
        AddVertex(vertex);
      }
    }

    method MergePositionBounds(from: PositionBounds)
      requires Valid() && from.Valid()
      modifies this
      ensures Valid() && Value() == Merge(old(Value()), old(from.Value()))
    {
      vertices, finite, projected := vertices + from.vertices, finite + from.finite, projected + from.projected;
      MergeClip(from);
      MergeNdc(from);
    }

    method MergeClip(from: PositionBounds)
      requires Valid() && from.Valid()
      modifies this`any, this`clipMin, this`clipMax
      ensures Valid() && Value() == old(Value()).(clip := Hull(old(Value()).clip, old(from.Value()).clip, 4))
    {
      if from.any {
        if !any {
          clipMin, clipMax, any := from.clipMin, from.clipMax, true;
        } else {
          clipMin, clipMax := Widen(clipMin, clipMax, from.clipMin, from.clipMax);
        }
      }
    }

    method MergeNdc(from: PositionBounds)
      requires Valid() && from.Valid()
      modifies this`isProjected, this`ndcMin, this`ndcMax
      ensures Valid() && Value() == old(Value()).(ndc := Hull(old(Value()).ndc, old(from.Value()).ndc, 3))
    {
      if from.isProjected {
        if !isProjected {
          ndcMin, ndcMax, isProjected := from.ndcMin, from.ndcMax, true;
        } else {
          ndcMin, ndcMax := Widen(ndcMin, ndcMax, from.ndcMin, from.ndcMax);
        }
      }
    }
  }

  method Widen(min: seq<real>, max: seq<real>, low: seq<real>, high: seq<real>)
    returns (newMin: seq<real>, newMax: seq<real>)
    requires |min| == |max| == |low| == |high|
    ensures newMin == Low(min, low) && newMax == High(max, high)
  {
    newMin, newMax := min, max;
    for c := 0 to |low|
      invariant |newMin| == |newMax| == |low|
      invariant forall k | 0 <= k < c :: newMin[k] == Low(min, low)[k] && newMax[k] == High(max, high)[k]
      invariant forall k | c <= k < |low| :: newMin[k] == min[k] && newMax[k] == max[k]
    {
      if low[c] < newMin[c] {
        newMin := newMin[c := low[c]];
      }
      if high[c] > newMax[c] {
        newMax := newMax[c := high[c]];
      }
    }
  }

  // ------------------------------------------------------------------ a call's instances

  datatype Stage = VSOut | GSOut | MeshOut

  /** The engine's description of one instance's stream; `buffer` is absent for the null resource. */
  datatype Mesh =
    Mesh(buffer: Option<seq<byte>>, stride: nat, unproject: bool, offset: nat, numIndices: nat, meshlets: seq<nat>)

  datatype CallBounds = CallBounds(data: bool, position: bool, stage: Stage, instances: seq<Bounds>, total: Bounds)

  predicate HasData(mesh: Mesh) {
    mesh.buffer.Some? && mesh.stride != 0
  }

  function Vertices(meshlets: seq<nat>): nat {
    if meshlets == [] then 0 else Vertices(meshlets[..|meshlets| - 1]) + meshlets[|meshlets| - 1]
  }

  method MeshCounts(mesh: Mesh) returns (vertices: nat)
    ensures vertices == if mesh.meshlets == [] then mesh.numIndices else Vertices(mesh.meshlets)
  {
    if mesh.meshlets != [] {
      vertices := 0;
      for i := 0 to |mesh.meshlets|
        invariant vertices == Vertices(mesh.meshlets[..i])
      {
        assert mesh.meshlets[..i + 1][..i] == mesh.meshlets[..i];
        vertices := vertices + mesh.meshlets[i];
      }
      assert mesh.meshlets[..|mesh.meshlets|] == mesh.meshlets;
      return;
    }
    vertices := mesh.numIndices;
  }

  /** The vertices of one instance: its own run of the shared buffer. */
  function InstanceStream(data: seq<byte>, mesh: Mesh, float: seq<byte> -> Float): seq<Vertex> {
    if mesh.offset < |data| then
      Stream(data[mesh.offset..], mesh.stride,
             if mesh.meshlets == [] then mesh.numIndices else Vertices(mesh.meshlets), float)
    else []
  }

  function AtLeast(low: nat, x: int): nat {
    if x > low then x else low
  }

  /** The instances of a call, one stream each. */
  function Streams(mesh: (nat, Stage) -> Mesh, data: seq<byte>, stage: Stage, first: int, n: nat,
                   float: seq<byte> -> Float): seq<seq<Vertex>> {
    seq(n, i => InstanceStream(data, mesh(AtLeast(0, first + i), stage), float))
  }

  function Concat<T>(parts: seq<seq<T>>): seq<T> {
    if parts == [] then [] else Concat(parts[..|parts| - 1]) + parts[|parts| - 1]
  }

  /** The stage a call's geometry is in: the one asked for, else the first with data. */
  function StageOf(mesh: (nat, Stage) -> Mesh, first: nat, asked: Option<Stage>): Option<Stage> {
    match asked
    case Some(stage) => if HasData(mesh(first, stage)) then asked else None
    case None =>
      if HasData(mesh(first, GSOut)) then Some(GSOut)
      else if HasData(mesh(first, VSOut)) then Some(VSOut)
      else if HasData(mesh(first, MeshOut)) then Some(MeshOut)
      else None
  }

  method PickStage(mesh: (nat, Stage) -> Mesh, first: nat, asked: Option<Stage>) returns (found: bool, stage: Stage)
    ensures found <==> StageOf(mesh, first, asked).Some?
    ensures found ==> StageOf(mesh, first, asked) == Some(stage)
    ensures !found ==> stage == if asked.Some? then asked.value else VSOut
  {
    if asked.Some? {
      return HasData(mesh(first, asked.value)), asked.value;
    }
    var order := [GSOut, VSOut, MeshOut];
    assert order[0] == GSOut && order[1] == VSOut && order[2] == MeshOut;
    for i := 0 to 3
      invariant forall j | 0 <= j < i :: !HasData(mesh(first, order[j]))
    {
      if HasData(mesh(first, order[i])) {
        return true, order[i];
      }
    }
    return false, VSOut;
  }

  /** Every instance has its own stream's bounds, and the total is that of all the streams together. */
  method CallPositionBounds(mesh: (nat, Stage) -> Mesh, asked: Option<Stage>, first: int, count: int,
                            float: seq<byte> -> Float) returns (call: CallBounds)
    ensures call.data <==> StageOf(mesh, AtLeast(0, first), asked).Some?
    ensures call.position <==> call.data && mesh(AtLeast(0, first), call.stage).unproject
    ensures !call.position ==> call.instances == [] && call.total == EMPTY
    ensures call.position ==>
              StageOf(mesh, AtLeast(0, first), asked) == Some(call.stage)
              && var buffer := mesh(AtLeast(0, first), call.stage).buffer;
                 buffer.Some?
                 && var streams := Streams(mesh, buffer.value, call.stage, first, AtLeast(1, count), float);
                    call.instances == seq(|streams|, i requires 0 <= i < |streams| => BoundsOf(streams[i]))
                    && call.total == BoundsOf(Concat(streams))
  {
    var found, stage := PickStage(mesh, AtLeast(0, first), asked);
    if !found {
      return CallBounds(false, false, stage, [], EMPTY);
    }
    var shared := mesh(AtLeast(0, first), stage);
    if !shared.unproject {
      return CallBounds(true, false, stage, [], EMPTY);
    }
    var n := AtLeast(1, count);
    var instances, total := FoldInstances(mesh, shared.buffer.value, stage, first, n, float);
    call := CallBounds(true, true, stage, instances, total);
  }

  method FoldInstance(data: seq<byte>, one: Mesh, float: seq<byte> -> Float) returns (bounds: PositionBounds)
    ensures fresh(bounds) && bounds.Valid() && bounds.Value() == BoundsOf(InstanceStream(data, one, float))
  {
    var vertices := MeshCounts(one);
    bounds := new PositionBounds();
    if one.offset < |data| {
      Unit(BoundsOf(Stream(data[one.offset..], one.stride, vertices, float)));
      bounds.PositionBoundsAdd(data[one.offset..], one.stride, vertices, float);
    }
  }

  lemma ConcatNext<T>(parts: seq<seq<T>>, i: nat)
    requires i < |parts|
    ensures Concat(parts[..i + 1]) == Concat(parts[..i]) + parts[i]
  {
    assert parts[..i + 1][..i] == parts[..i];
  }

  lemma StreamOf(mesh: (nat, Stage) -> Mesh, data: seq<byte>, stage: Stage, first: int, n: nat,
                 float: seq<byte> -> Float, i: nat)
    requires i < n
    ensures Streams(mesh, data, stage, first, n, float)[i]
            == InstanceStream(data, mesh(AtLeast(0, first + i), stage), float)
  {
  }

  method FoldInstances(mesh: (nat, Stage) -> Mesh, data: seq<byte>, stage: Stage, first: int, n: nat,
                       float: seq<byte> -> Float) returns (instances: seq<Bounds>, sum: Bounds)
    ensures var streams := Streams(mesh, data, stage, first, n, float);
            instances == seq(n, i requires 0 <= i < n => BoundsOf(streams[i])) && sum == BoundsOf(Concat(streams))
  {
    var total := new PositionBounds();
    instances := [];
    ghost var streams := Streams(mesh, data, stage, first, n, float);
    ghost var each := seq(n, i requires 0 <= i < n => BoundsOf(streams[i]));
    for i := 0 to n
      invariant fresh(total) && total.Valid() && total.Value() == BoundsOf(Concat(streams[..i]))
      invariant instances == each[..i]
    {
      ConcatNext(streams, i);
      FoldMerges(Concat(streams[..i]), streams[i]);
      var one := mesh(AtLeast(0, first + i), stage);
      StreamOf(mesh, data, stage, first, n, float, i);
      TakeNext(each, i);
      var bounds := FoldInstance(data, one, float);
      var value := bounds.Value();
      total.MergePositionBounds(bounds);
      instances := instances + [value];
    }
    assert streams[..n] == streams;
    sum := total.Value();
  }

  // ------------------------------------------------------------------ the boxes by vertices

  /** Four numbers. */
  predicate Finite(v: Vertex) {
    v[0].Real? && v[1].Real? && v[2].Real? && v[3].Real?
  }

  lemma WithinTight(box: Option<Box>, points: seq<seq<real>>, dim: nat, c: nat, p: seq<real>)
    requires Sized(box, dim) && (forall q | q in points :: |q| == dim) && Tightest(box, points, dim) && p in points && c < dim
    ensures box.Some? && box.value.min[c] <= p[c] <= box.value.max[c]
  {
    assert Tight(box.value.min[c], box.value.max[c], points, dim, c);
  }

  ghost predicate ClipAmong(vertices: seq<Vertex>, p: seq<real>) {
    exists v :: v in vertices && Finite(v) && p == Clip(v)
  }

  lemma ClipAmongNext(init: seq<Vertex>, last: Vertex, p: seq<real>)
    ensures ClipAmong(init + [last], p) <==> ClipAmong(init, p) || (Finite(last) && p == Clip(last))
  {
    if ClipAmong(init, p) {
      var v :| v in init && Finite(v) && p == Clip(v);
      assert v in init + [last];
    }
    assert last in init + [last];
  }

  lemma ClipPointsNext(init: seq<Vertex>, last: Vertex, p: seq<real>)
    ensures p in ClipPoints(init + [last]) <==> p in ClipPoints(init) || (Finite(last) && p == Clip(last))
  {
    assert (init + [last])[..|init|] == init;
  }

  lemma {:induction false} ClipPointsAre(vertices: seq<Vertex>, p: seq<real>)
    ensures p in ClipPoints(vertices) <==> ClipAmong(vertices, p)
  {
    if vertices != [] {
      var init, last := vertices[..|vertices| - 1], vertices[|vertices| - 1];
      ClipPointsAre(init, p);
      ClipAmongNext(init, last, p);
      ClipPointsNext(init, last, p);
      assert vertices == init + [last];
    }
  }

  lemma ClipPointOf(vertices: seq<Vertex>, v: Vertex)
    requires v in vertices && Finite(v)
    ensures Clip(v) in ClipPoints(vertices)
  {
    ClipPointsAre(vertices, Clip(v));
  }

  lemma ClipVertexOf(vertices: seq<Vertex>, p: seq<real>) returns (v: Vertex)
    requires p in ClipPoints(vertices)
    ensures v in vertices && Finite(v) && p == Clip(v)
  {
    ClipPointsAre(vertices, p);
    v :| v in vertices && Finite(v) && p == Clip(v);
  }

  /** Each component of a vertex of four numbers lies within the clip box. */
  lemma ClipBoxHolds(vertices: seq<Vertex>, v: Vertex, c: nat)
    requires c < 4 && v in vertices && Finite(v)
    ensures var box := BoundsOf(vertices).clip;
            box.Some? && box.value.min[c] <= v[c].value <= box.value.max[c]
  {
    BoundsAreTightest(vertices);
    ClipPointOf(vertices, v);
    WithinTight(BoundsOf(vertices).clip, ClipPoints(vertices), 4, c, Clip(v));
  }

  /** And each of its sides is a component of such a vertex. */
  lemma ClipBoxIsReached(vertices: seq<Vertex>, c: nat) returns (low: Vertex, high: Vertex)
    requires c < 4 && BoundsOf(vertices).clip.Some?
    ensures low in vertices && Finite(low) && low[c].value == BoundsOf(vertices).clip.value.min[c]
    ensures high in vertices && Finite(high) && high[c].value == BoundsOf(vertices).clip.value.max[c]
  {
    BoundsAreTightest(vertices);
    var points, box := ClipPoints(vertices), BoundsOf(vertices).clip.value;
    assert Tight(box.min[c], box.max[c], points, 4, c);
    var p :| p in points && p[c] == box.min[c];
    var q :| q in points && q[c] == box.max[c];
    low := ClipVertexOf(vertices, p);
    high := ClipVertexOf(vertices, q);
  }

  /** In front of the eye. */
  predicate InFront(v: Vertex) {
    Finite(v) && v[3].value > 0.0
  }

  /** The place on the screen: a component over the fourth. */
  function OnScreen(v: Vertex, c: nat): real
    requires InFront(v) && c < 3
  {
    v[c].value / v[3].value
  }

  ghost predicate NdcAmong(vertices: seq<Vertex>, p: seq<real>) {
    exists v :: v in vertices && InFront(v) && p == Ndc(v)
  }

  lemma NdcAmongNext(init: seq<Vertex>, last: Vertex, p: seq<real>)
    ensures NdcAmong(init + [last], p) <==> NdcAmong(init, p) || (InFront(last) && p == Ndc(last))
  {
    if NdcAmong(init, p) {
      var v :| v in init && InFront(v) && p == Ndc(v);
      assert v in init + [last];
    }
    assert last in init + [last];
  }

  lemma NdcPointsNext(init: seq<Vertex>, last: Vertex, p: seq<real>)
    ensures p in NdcPoints(init + [last]) <==> p in NdcPoints(init) || (InFront(last) && p == Ndc(last))
  {
    assert (init + [last])[..|init|] == init;
  }

  lemma {:induction false} NdcPointsAre(vertices: seq<Vertex>, p: seq<real>)
    ensures p in NdcPoints(vertices) <==> NdcAmong(vertices, p)
  {
    if vertices != [] {
      var init, last := vertices[..|vertices| - 1], vertices[|vertices| - 1];
      NdcPointsAre(init, p);
      NdcAmongNext(init, last, p);
      NdcPointsNext(init, last, p);
      assert vertices == init + [last];
    }
  }

  lemma NdcPointOf(vertices: seq<Vertex>, v: Vertex)
    requires v in vertices && InFront(v)
    ensures Ndc(v) in NdcPoints(vertices)
  {
    NdcPointsAre(vertices, Ndc(v));
  }

  lemma NdcVertexOf(vertices: seq<Vertex>, p: seq<real>) returns (v: Vertex)
    requires p in NdcPoints(vertices)
    ensures v in vertices && InFront(v) && p == Ndc(v)
  {
    NdcPointsAre(vertices, p);
    v :| v in vertices && InFront(v) && p == Ndc(v);
  }

  /** Each place on the screen of a vertex in front of the eye lies within the NDC box. */
  lemma NdcBoxHolds(vertices: seq<Vertex>, v: Vertex, c: nat)
    requires c < 3 && v in vertices && InFront(v)
    ensures var box := BoundsOf(vertices).ndc;
            box.Some? && box.value.min[c] <= OnScreen(v, c) <= box.value.max[c]
  {
    BoundsAreTightest(vertices);
    NdcPointOf(vertices, v);
    WithinTight(BoundsOf(vertices).ndc, NdcPoints(vertices), 3, c, Ndc(v));
  }

  /** And each of its sides is such a place. */
  lemma NdcBoxIsReached(vertices: seq<Vertex>, c: nat) returns (low: Vertex, high: Vertex)
    requires c < 3 && BoundsOf(vertices).ndc.Some?
    ensures low in vertices && InFront(low) && OnScreen(low, c) == BoundsOf(vertices).ndc.value.min[c]
    ensures high in vertices && InFront(high) && OnScreen(high, c) == BoundsOf(vertices).ndc.value.max[c]
  {
    BoundsAreTightest(vertices);
    var points, box := NdcPoints(vertices), BoundsOf(vertices).ndc.value;
    assert Tight(box.min[c], box.max[c], points, 3, c);
    var p :| p in points && p[c] == box.min[c];
    var q :| q in points && q[c] == box.max[c];
    low := NdcVertexOf(vertices, p);
    high := NdcVertexOf(vertices, q);
  }

  // ------------------------------------------------------------------ the vertices by bytes

  /** Vertex `v` is there, and its four floats stand one behind the other from byte `v * stride` on. */
  predicate StandsAt(data: seq<byte>, start: nat, float: seq<byte> -> Float, v: Vertex) {
    start + 16 <= |data|
    && v[0] == float(data[start..start + 4]) && v[1] == float(data[start + 4..start + 8])
    && v[2] == float(data[start + 8..start + 12]) && v[3] == float(data[start + 12..start + 16])
  }

  lemma StartsGrow(stride: nat, v: nat, w: nat)
    requires v <= w
    ensures 0 <= v * stride <= w * stride
  {
    Product(v, stride, w, stride);
  }

  /** The vertices of a stream: those below the count that lie inside the bytes, from a stride of four floats on. */
  lemma {:induction false} StreamTells(data: seq<byte>, stride: nat, count: nat, float: seq<byte> -> Float, v: nat)
    ensures v < |Stream(data, stride, count, float)| <==> v < count && stride >= 16 && 0 <= v * stride && v * stride + 16 <= |data|
    ensures v < |Stream(data, stride, count, float)| ==>
              0 <= v * stride && StandsAt(data, v * stride, float, Stream(data, stride, count, float)[v])
    ensures |Stream(data, stride, count, float)| <= count
  {
    StartsGrow(stride, 0, v);
    if count > 0 {
      StreamTells(data, stride, count - 1, float, v);
      if count >= 2 {
        StreamTells(data, stride, count - 1, float, count - 2);
        StartsGrow(stride, count - 2, count - 1);
      }
      if v < count - 1 {
        StartsGrow(stride, v, count - 1);
      }
    }
  }

  /** How many vertices an instance has: its indices, or those of its meshlets together. */
  lemma VerticesAre(meshlets: seq<nat>, more: nat)
    ensures Vertices([]) == 0 && Vertices(meshlets + [more]) == Vertices(meshlets) + more
  {
    assert (meshlets + [more])[..|meshlets|] == meshlets;
  }

  /** The vertices of an instance: its own run of the shared bytes, from its offset on. */
  lemma InstanceTells(data: seq<byte>, mesh: Mesh, float: seq<byte> -> Float, v: nat)
    ensures v < |InstanceStream(data, mesh, float)|
            <==> mesh.offset < |data| && v < (if mesh.meshlets == [] then mesh.numIndices else Vertices(mesh.meshlets))
                 && mesh.stride >= 16 && 0 <= v * mesh.stride && mesh.offset + v * mesh.stride + 16 <= |data|
    ensures v < |InstanceStream(data, mesh, float)| ==>
              0 <= v * mesh.stride && StandsAt(data, mesh.offset + v * mesh.stride, float, InstanceStream(data, mesh, float)[v])
  {
    if mesh.offset < |data| {
      var count := if mesh.meshlets == [] then mesh.numIndices else Vertices(mesh.meshlets);
      StreamTells(data[mesh.offset..], mesh.stride, count, float, v);
      if v < |InstanceStream(data, mesh, float)| {
        ShiftedVertex(data, mesh.offset, v * mesh.stride, float, InstanceStream(data, mesh, float)[v]);
      }
    }
  }

  lemma ShiftedVertex(data: seq<byte>, offset: nat, start: nat, float: seq<byte> -> Float, v: Vertex)
    requires offset <= |data| && StandsAt(data[offset..], start, float, v)
    ensures StandsAt(data, offset + start, float, v)
  {
    assert data[offset..][start..start + 4] == data[offset + start..offset + start + 4];
    assert data[offset..][start + 4..start + 8] == data[offset + start + 4..offset + start + 8];
    assert data[offset..][start + 8..start + 12] == data[offset + start + 8..offset + start + 12];
    assert data[offset..][start + 12..start + 16] == data[offset + start + 12..offset + start + 16];
  }

  /** The runs of a call: instance by instance from the first one asked for, none of them below 0. */
  lemma StreamsTell(mesh: (nat, Stage) -> Mesh, data: seq<byte>, stage: Stage, first: int, n: nat,
                    float: seq<byte> -> Float, i: nat)
    requires i < n
    ensures |Streams(mesh, data, stage, first, n, float)| == n
    ensures Streams(mesh, data, stage, first, n, float)[i]
            == InstanceStream(data, mesh(if first + i > 0 then first + i else 0, stage), float)
  {
    assert AtLeast(0, first + i) == if first + i > 0 then first + i else 0;
  }

  /** Which stage: the one asked for if it has data; else the first with data, geometry before vertex before mesh. */
  lemma StageTells(mesh: (nat, Stage) -> Mesh, first: nat, asked: Option<Stage>)
    ensures asked.Some? ==> (StageOf(mesh, first, asked).Some? <==> HasData(mesh(first, asked.value)))
    ensures asked.None? && HasData(mesh(first, GSOut)) ==> StageOf(mesh, first, asked) == Some(GSOut)
    ensures asked.None? && !HasData(mesh(first, GSOut)) && HasData(mesh(first, VSOut)) ==> StageOf(mesh, first, asked) == Some(VSOut)
    ensures asked.None? && StageOf(mesh, first, asked) == Some(MeshOut)
            <==> asked.None? && HasData(mesh(first, MeshOut)) && !HasData(mesh(first, GSOut)) && !HasData(mesh(first, VSOut))
    ensures StageOf(mesh, first, asked).Some? ==> HasData(mesh(first, StageOf(mesh, first, asked).value))
  {
  }
}
