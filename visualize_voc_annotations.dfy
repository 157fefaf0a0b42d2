/**
  The label-mask compositor of visualize_voc_annotations.py.

  An annotation is a list of objects, each with a class name and, maybe, a
  polygon element given as its parsed children (tag name to coordinate).
  The objects are grouped by class name in document order; the classes are
  painted onto an all-zero grid in the drawing order, every polygon of a
  class with that class's id, later paint covering earlier paint. Which
  pixels a polygon fills is the drawing library's business: it is the
  parameter `covers(points, x, y)`.

  The colour lookup `VisualizeMask` turns a mask into an RGB image.
 */
module VocAnnotations {
  import opened Wrappers
  import opened Strings

  datatype Point = Point(x: real, y: real)

  /** The children of a <polygon> element: tag name to its parsed number. */
  type PolygonTags = map<string, real>

  /** An <object> element: its <name> text and its <polygon> element, if any. */
  datatype AnnotatedObject = AnnotatedObject(name: string, polygon: Option<PolygonTags>)

  /** Whether the filled polygon with these vertices covers pixel (x, y). */
  type Coverage = (seq<Point>, int, int) -> bool

  /** Vertex indices run over `range(1, 100)`. */
  const MaxVertices := 99

  // ---------------------------------------------------------------------
  // Loops that emit a sequence element by element

  /**
    `f(s[0]) + f(s[1]) + ...`: what a loop over `s` emits when it emits
    `f(x)` for each element `x`.
   */
  function Flatten<T, U>(f: T -> seq<U>, s: seq<T>): seq<U> {
    if s == [] then [] else Flatten(f, s[..|s| - 1]) + f(s[|s| - 1])
  }

  lemma FlattenStep<T, U>(f: T -> seq<U>, s: seq<T>, i: nat)
    requires i < |s|
    ensures Flatten(f, s[..i + 1]) == Flatten(f, s[..i]) + f(s[i])
  {
    assert s[..i + 1][..i] == s[..i];
  }

  lemma {:induction false} FlattenAppend<T, U>(f: T -> seq<U>, a: seq<T>, b: seq<T>)
    ensures Flatten(f, a + b) == Flatten(f, a) + Flatten(f, b)
    decreases |b|
  {
    if b == [] {
      assert a + b == a;
    } else {
      var b' := b[..|b| - 1];
      FlattenAppend(f, a, b');
      assert (a + b)[..|a + b| - 1] == a + b';
      assert (a + b)[|a + b| - 1] == b[|b| - 1];
    }
  }

  /** Every emitted element comes from some element of the input. */
  lemma {:induction false} FlattenOrigin<T, U>(f: T -> seq<U>, s: seq<T>, u: U)
    requires u in Flatten(f, s)
    ensures exists k :: 0 <= k < |s| && u in f(s[k])
  {
    var prefix := s[..|s| - 1];
    if u in Flatten(f, prefix) {
      FlattenOrigin(f, prefix, u);
      var k :| 0 <= k < |prefix| && u in f(prefix[k]);
      assert prefix[k] == s[k];
    }
  }

  /** Everything emitted for an element of the input is in the output. */
  lemma {:induction false} FlattenComplete<T, U>(f: T -> seq<U>, s: seq<T>, k: nat, u: U)
    requires k < |s| && u in f(s[k])
    ensures u in Flatten(f, s)
  {
    if k < |s| - 1 {
      var prefix := s[..|s| - 1];
      assert prefix[k] == s[k];
      FlattenComplete(f, prefix, k, u);
    }
  }

  /** Emitting the same for every element gives the same output. */
  lemma {:induction false} FlattenAgree<T, U>(f: T -> seq<U>, g: T -> seq<U>, s: seq<T>)
    requires forall k :: 0 <= k < |s| ==> f(s[k]) == g(s[k])
    ensures Flatten(f, s) == Flatten(g, s)
  {
    if s != [] {
      var prefix := s[..|s| - 1];
      forall k | 0 <= k < |prefix| ensures f(prefix[k]) == g(prefix[k]) {
        assert prefix[k] == s[k];
      }
      FlattenAgree(f, g, prefix);
    }
  }

  // ---------------------------------------------------------------------
  // Grouping objects by class name

  function Keep(o: AnnotatedObject, name: string): seq<AnnotatedObject> {
    if o.name == name then [o] else []
  }

  function KeepNamed(name: string): AnnotatedObject -> seq<AnnotatedObject> {
    o => Keep(o, name)
  }

  /** The objects of class `name`, in document order. */
  function Filter(objects: seq<AnnotatedObject>, name: string): seq<AnnotatedObject> {
    Flatten(KeepNamed(name), objects)
  }

  /** An object is in the group of `name` exactly when it is one of the objects and has that name. */
  lemma FilterMembers(objects: seq<AnnotatedObject>, name: string, o: AnnotatedObject)
    ensures o in Filter(objects, name) <==> o in objects && o.name == name
  {
    if o in Filter(objects, name) {
      FlattenOrigin(KeepNamed(name), objects, o);
      var k :| 0 <= k < |objects| && o in KeepNamed(name)(objects[k]);
      assert o in Keep(objects[k], name);
    }
    if o in objects && o.name == name {
      var k :| 0 <= k < |objects| && objects[k] == o;
      assert o in KeepNamed(name)(objects[k]);
      FlattenComplete(KeepNamed(name), objects, k, o);
    }
  }

  /** Grouping commutes with concatenation: document order is kept. */
  lemma FilterAppend(a: seq<AnnotatedObject>, b: seq<AnnotatedObject>, name: string)
    ensures Filter(a + b, name) == Filter(a, name) + Filter(b, name)
  {
    FlattenAppend(KeepNamed(name), a, b);
  }

  /** A name that no object carries has an empty group. */
  lemma {:induction false} FilterNone(objects: seq<AnnotatedObject>, name: string)
    requires forall k :: 0 <= k < |objects| ==> objects[k].name != name
    ensures Filter(objects, name) == []
  {
    if objects != [] {
      var prefix := objects[..|objects| - 1];
      assert forall k :: 0 <= k < |prefix| ==> prefix[k] == objects[k];
      FilterNone(prefix, name);
    }
  }

  /** One more object extends its own group and leaves the others as they were. */
  lemma FilterStep(objects: seq<AnnotatedObject>, i: nat, n: string)
    requires i < |objects|
    ensures Filter(objects[..i + 1], n)
            == if objects[i].name == n then Filter(objects[..i], n) + [objects[i]] else Filter(objects[..i], n)
  {
    FlattenStep(KeepNamed(n), objects, i);
    assert Filter(objects[..i], n) + [] == Filter(objects[..i], n);
  }

  /**
    The `objects_by_name` dictionary: one key per class name that occurs,
    holding that class's objects in document order.
   */
  method GroupByName(objects: seq<AnnotatedObject>) returns (groups: map<string, seq<AnnotatedObject>>)
    ensures forall n :: n in groups <==> exists k :: 0 <= k < |objects| && objects[k].name == n
    ensures forall n :: n in groups ==> groups[n] == Filter(objects, n)
  {
    groups := map[];
    for i := 0 to |objects|
      invariant forall n :: n in groups <==> exists k :: 0 <= k < i && objects[k].name == n
      invariant forall n :: n in groups ==> groups[n] == Filter(objects[..i], n)
    {
      var name := objects[i].name;
      forall n ensures Filter(objects[..i + 1], n)
                       == if n == name then Filter(objects[..i], n) + [objects[i]] else Filter(objects[..i], n)
      {
        FilterStep(objects, i, n);
      }
      if name !in groups {
        assert forall k :: 0 <= k < i ==> objects[..i][k] == objects[k];
        FilterNone(objects[..i], name);
        groups := groups[name := []];
      }
      groups := groups[name := groups[name] + [objects[i]]];
    }
    assert objects[..|objects|] == objects;
  }

  // ---------------------------------------------------------------------
  // Reading a polygon's vertices

  function XTag(i: nat): string { "x" + Decimal(i) }
  function YTag(i: nat): string { "y" + Decimal(i) }

  predicate HasVertex(tags: PolygonTags, i: nat) {
    XTag(i) in tags && YTag(i) in tags
  }

  function Vertex(tags: PolygonTags, i: nat): Point
    requires HasVertex(tags, i)
  {
    Point(tags[XTag(i)], tags[YTag(i)])
  }

  /** The vertices read from index `i` on, up to index 99. */
  function PointsFrom(tags: PolygonTags, i: nat): seq<Point>
    requires 1 <= i <= MaxVertices + 1
    decreases MaxVertices + 1 - i
  {
    if i == MaxVertices + 1 || !HasVertex(tags, i) then []
    else [Vertex(tags, i)] + PointsFrom(tags, i + 1)
  }

  /** Entry `j - i` of the vertices read from index `i` on is vertex `j`, which is present. */
  lemma {:induction false} PointsFromAt(tags: PolygonTags, i: nat, j: nat)
    requires 1 <= i <= j <= MaxVertices && j - i < |PointsFrom(tags, i)|
    ensures HasVertex(tags, j) && PointsFrom(tags, i)[j - i] == Vertex(tags, j)
    decreases j - i
  {
    if j > i {
      PointsFromAt(tags, i + 1, j);
    }
  }

  /**
    Reading from index `i` on stops at index 99 at the latest, and before
    that only at an index lacking its x or its y tag.
   */
  lemma {:induction false} PointsFromStop(tags: PolygonTags, i: nat)
    requires 1 <= i <= MaxVertices + 1
    ensures |PointsFrom(tags, i)| <= MaxVertices + 1 - i
    ensures |PointsFrom(tags, i)| < MaxVertices + 1 - i ==> !HasVertex(tags, i + |PointsFrom(tags, i)|)
    decreases MaxVertices + 1 - i
  {
    if i < MaxVertices + 1 && HasVertex(tags, i) {
      PointsFromStop(tags, i + 1);
    }
  }

  /** The vertex list of a polygon element. */
  function PolygonPoints(tags: PolygonTags): seq<Point> {
    PointsFrom(tags, 1)
  }

  /**
    The vertex list holds, for j = 1, 2, ..., the point (xj, yj), as long as
    both tags are present, and at most 99 points: reading stops at the first
    index that lacks one of the two.
   */
  lemma PolygonPointsRun(tags: PolygonTags)
    ensures |PolygonPoints(tags)| <= MaxVertices
    ensures forall j :: 1 <= j <= |PolygonPoints(tags)| ==>
              HasVertex(tags, j) && PolygonPoints(tags)[j - 1] == Vertex(tags, j)
    ensures |PolygonPoints(tags)| < MaxVertices ==> !HasVertex(tags, |PolygonPoints(tags)| + 1)
  {
    PointsFromStop(tags, 1);
    forall j | 1 <= j <= |PolygonPoints(tags)|
      ensures HasVertex(tags, j) && PolygonPoints(tags)[j - 1] == Vertex(tags, j)
    {
      PointsFromAt(tags, 1, j);
    }
  }

  /** Whether reading index `i` extends the list read so far or ends it. */
  lemma PolygonPointsStep(tags: PolygonTags, i: nat)
    requires 1 <= i <= MaxVertices && i - 1 <= |PolygonPoints(tags)|
    ensures |PolygonPoints(tags)| <= MaxVertices
    ensures HasVertex(tags, i) ==> i - 1 < |PolygonPoints(tags)| && PolygonPoints(tags)[i - 1] == Vertex(tags, i)
    ensures !HasVertex(tags, i) ==> i - 1 == |PolygonPoints(tags)|
  {
    PolygonPointsRun(tags);
  }

  lemma PrefixSnoc<T>(s: seq<T>, n: nat)
    requires n < |s|
    ensures s[..n + 1] == s[..n] + [s[n]]
  {
  }

  /**
    Reads `x1`/`y1`, `x2`/`y2`, ... until an index lacks one of the two, or
    99 points have been read. A gap ends the list; it is not an error.
   */
  method ExtractPoints(tags: PolygonTags) returns (points: seq<Point>)
    ensures points == PolygonPoints(tags)
  {
    ghost var all := PolygonPoints(tags);
    PolygonPointsRun(tags);
    points := [];
    for i := 1 to MaxVertices + 1
      invariant i - 1 <= |all| && points == all[..i - 1]
    {
      var xCoord := if XTag(i) in tags then Some(tags[XTag(i)]) else None;
      var yCoord := if YTag(i) in tags then Some(tags[YTag(i)]) else None;
      PolygonPointsStep(tags, i);
      if xCoord.Some? && yCoord.Some? {
        PrefixSnoc(all, i - 1);
        points := points + [Point(xCoord.value, yCoord.value)];
      } else {
        assert points == all;
        break;
      }
    }
    assert all[..|all|] == all;
  }

  /** A gap after the second vertex: only the first two are read, the rest is ignored. */
  lemma GapTruncatesPolygon()
    ensures PolygonPoints(map["x1" := 1.0, "y1" := 2.0, "x2" := 3.0, "y2" := 4.0, "x4" := 5.0, "y4" := 6.0])
            == [Point(1.0, 2.0), Point(3.0, 4.0)]
  {
    var tags := map["x1" := 1.0, "y1" := 2.0, "x2" := 3.0, "y2" := 4.0, "x4" := 5.0, "y4" := 6.0];
    assert XTag(1) == "x1" && YTag(1) == "y1";
    assert XTag(2) == "x2" && YTag(2) == "y2";
    assert XTag(3) == "x3";
    assert PointsFrom(tags, 3) == [];
  }

  // ---------------------------------------------------------------------
  // What gets drawn, and in which order

  /** One `draw.polygon(points, fill=id)` call. */
  datatype Stroke = Stroke(points: seq<Point>, id: int)

  /** An object is drawn when it has a polygon element with at least one vertex. */
  predicate Drawable(o: AnnotatedObject) {
    o.polygon.Some? && |PolygonPoints(o.polygon.value)| > 0
  }

  function StrokeOf(o: AnnotatedObject, id: int): Stroke
    requires o.polygon.Some?
  {
    Stroke(PolygonPoints(o.polygon.value), id)
  }

  /** What one object contributes: its polygon when it is drawable, nothing otherwise. */
  function ObjectStroke(o: AnnotatedObject, id: int): seq<Stroke> {
    if Drawable(o) then [StrokeOf(o, id)] else []
  }

  function ObjectStrokeOf(id: int): AnnotatedObject -> seq<Stroke> {
    o => ObjectStroke(o, id)
  }

  /** The strokes for the objects of one class, in document order. */
  function ObjectStrokes(objs: seq<AnnotatedObject>, id: int): seq<Stroke> {
    Flatten(ObjectStrokeOf(id), objs)
  }

  /** The strokes of one class: none at all when the class has no id in the mapping. */
  function ClassStrokes(objects: seq<AnnotatedObject>, classMapping: map<string, int>, name: string): seq<Stroke> {
    if name in classMapping then ObjectStrokes(Filter(objects, name), classMapping[name]) else []
  }

  function ClassStrokesOf(objects: seq<AnnotatedObject>, classMapping: map<string, int>): string -> seq<Stroke> {
    name => ClassStrokes(objects, classMapping, name)
  }

  /** Every stroke, class by class in drawing order. */
  function Strokes(objects: seq<AnnotatedObject>, classMapping: map<string, int>, order: seq<string>): seq<Stroke> {
    Flatten(ClassStrokesOf(objects, classMapping), order)
  }

  /** Drawing the classes of `a` and then those of `b` is drawing `a + b`. */
  lemma StrokesAppend(objects: seq<AnnotatedObject>, classMapping: map<string, int>, a: seq<string>, b: seq<string>)
    ensures Strokes(objects, classMapping, a + b) == Strokes(objects, classMapping, a) + Strokes(objects, classMapping, b)
  {
    FlattenAppend(ClassStrokesOf(objects, classMapping), a, b);
  }

  /** A drawing order of one class draws just that class. */
  lemma StrokesOfOne(objects: seq<AnnotatedObject>, classMapping: map<string, int>, name: string)
    ensures Strokes(objects, classMapping, [name]) == ClassStrokes(objects, classMapping, name)
  {
    var f := ClassStrokesOf(objects, classMapping);
    assert [name][..0] == [];
    assert Flatten(f, [name]) == [] + f(name);
    assert [] + f(name) == f(name);
  }

  /** A class missing from the mapping draws nothing, wherever it stands in the drawing order. */
  lemma UnmappedClassDrawsNothing(objects: seq<AnnotatedObject>, classMapping: map<string, int>,
                                  before: seq<string>, name: string, after: seq<string>)
    requires name !in classMapping
    ensures Strokes(objects, classMapping, before + [name] + after)
            == Strokes(objects, classMapping, before + after)
  {
    StrokesAppend(objects, classMapping, before + [name], after);
    StrokesAppend(objects, classMapping, before, [name]);
    StrokesAppend(objects, classMapping, before, after);
    StrokesOfOne(objects, classMapping, name);
    assert Strokes(objects, classMapping, before) + [] == Strokes(objects, classMapping, before);
  }

  /** Every stroke of a class is the polygon of one of its drawable objects, filled with the class id. */
  lemma ObjectStrokeOrigin(objs: seq<AnnotatedObject>, id: int, s: Stroke)
    requires s in ObjectStrokes(objs, id)
    ensures exists o :: o in objs && Drawable(o) && s == StrokeOf(o, id)
  {
    FlattenOrigin(ObjectStrokeOf(id), objs, s);
    var k :| 0 <= k < |objs| && s in ObjectStrokeOf(id)(objs[k]);
    assert s in ObjectStroke(objs[k], id);
  }

  lemma ObjectStrokeComplete(objs: seq<AnnotatedObject>, id: int, o: AnnotatedObject)
    requires o in objs && Drawable(o)
    ensures StrokeOf(o, id) in ObjectStrokes(objs, id)
  {
    var k :| 0 <= k < |objs| && objs[k] == o;
    assert StrokeOf(o, id) in ObjectStrokeOf(id)(objs[k]);
    FlattenComplete(ObjectStrokeOf(id), objs, k, StrokeOf(o, id));
  }

  /**
    Every stroke comes from a drawable object whose class is in the drawing
    order and in the mapping, and is filled with that class's id.
   */
  lemma StrokeOrigin(objects: seq<AnnotatedObject>, classMapping: map<string, int>,
                     order: seq<string>, s: Stroke)
    requires s in Strokes(objects, classMapping, order)
    ensures exists o :: o in objects && o.name in order && o.name in classMapping && Drawable(o)
                        && s == StrokeOf(o, classMapping[o.name])
  {
    FlattenOrigin(ClassStrokesOf(objects, classMapping), order, s);
    var k :| 0 <= k < |order| && s in ClassStrokesOf(objects, classMapping)(order[k]);
    var name := order[k];
    assert s in ClassStrokes(objects, classMapping, name);
    assert name in classMapping;
    var group := Filter(objects, name);
    ObjectStrokeOrigin(group, classMapping[name], s);
    var o :| o in group && Drawable(o) && s == StrokeOf(o, classMapping[name]);
    FilterMembers(objects, name, o);
  }

  /**
    Conversely, every drawable object of a class that is in the drawing order
    and in the mapping is drawn, with its class id, even when that id is 0.
   */
  lemma StrokeComplete(objects: seq<AnnotatedObject>, classMapping: map<string, int>,
                       order: seq<string>, o: AnnotatedObject)
    requires o in objects && o.name in order && o.name in classMapping && Drawable(o)
    ensures StrokeOf(o, classMapping[o.name]) in Strokes(objects, classMapping, order)
  {
    var k :| 0 <= k < |order| && order[k] == o.name;
    FilterMembers(objects, o.name, o);
    ObjectStrokeComplete(Filter(objects, o.name), classMapping[o.name], o);
    assert StrokeOf(o, classMapping[o.name]) in ClassStrokesOf(objects, classMapping)(order[k]);
    FlattenComplete(ClassStrokesOf(objects, classMapping), order, k, StrokeOf(o, classMapping[o.name]));
  }

  /** All strokes of one class carry the class id. */
  lemma ObjectStrokeIds(objs: seq<AnnotatedObject>, id: int)
    ensures forall s :: s in ObjectStrokes(objs, id) ==> s.id == id
  {
    forall s | s in ObjectStrokes(objs, id) ensures s.id == id {
      ObjectStrokeOrigin(objs, id, s);
    }
  }

  /** The class-level step of `UndrawnObjectIsInvisible`. */
  lemma ClassStrokesWithout(before: seq<AnnotatedObject>, o: AnnotatedObject, after: seq<AnnotatedObject>,
                            classMapping: map<string, int>, name: string)
    requires o.name != name || name !in classMapping || !Drawable(o)
    ensures ClassStrokes(before + [o] + after, classMapping, name) == ClassStrokes(before + after, classMapping, name)
  {
    if name in classMapping {
      var f := ObjectStrokeOf(classMapping[name]);
      FilterAppend(before + [o], after, name);
      FilterAppend(before, [o], name);
      FilterAppend(before, after, name);
      var fo := Filter([o], name);
      assert fo == (if o.name == name then [o] else []) by {
        assert [o][..0] == [];
      }
      var fb, fa := Filter(before, name), Filter(after, name);
      FlattenAppend(f, fb + fo, fa);
      FlattenAppend(f, fb, fo);
      FlattenAppend(f, fb, fa);
      assert Flatten(f, fo) == [] by {
        if o.name == name {
          assert fo[..0] == [];
          assert f(o) == [];
        }
      }
      assert Flatten(f, fb) + [] == Flatten(f, fb);
    }
  }

  /**
    Removing an object that is never drawn changes nothing: one outside the
    drawing order, one of an unmapped class, or one without a polygon or
    with zero vertices.
   */
  lemma UndrawnObjectIsInvisible(before: seq<AnnotatedObject>, o: AnnotatedObject,
                                 after: seq<AnnotatedObject>,
                                 classMapping: map<string, int>, order: seq<string>)
    requires o.name !in order || o.name !in classMapping || !Drawable(o)
    ensures Strokes(before + [o] + after, classMapping, order) == Strokes(before + after, classMapping, order)
  {
    var f, g := ClassStrokesOf(before + [o] + after, classMapping), ClassStrokesOf(before + after, classMapping);
    forall k | 0 <= k < |order| ensures f(order[k]) == g(order[k]) {
      ClassStrokesWithout(before, o, after, classMapping, order[k]);
    }
    FlattenAgree(f, g, order);
  }

  // ---------------------------------------------------------------------
  // Painting

  /** The value of pixel (x, y) after painting `strokes` in order onto a zero pixel. */
  function Paint(strokes: seq<Stroke>, covers: Coverage, x: int, y: int): int {
    if strokes == [] then 0
    else
      var last := strokes[|strokes| - 1];
      if covers(last.points, x, y) then last.id else Paint(strokes[..|strokes| - 1], covers, x, y)
  }

  /** The final value of pixel (x, y) of the mask. */
  function MaskPixel(objects: seq<AnnotatedObject>, classMapping: map<string, int>, order: seq<string>,
                     covers: Coverage, x: int, y: int): int {
    Paint(Strokes(objects, classMapping, order), covers, x, y)
  }

  /** A pixel that no stroke covers stays 0. */
  lemma {:induction false} PaintUncovered(strokes: seq<Stroke>, covers: Coverage, x: int, y: int)
    requires forall k :: 0 <= k < |strokes| ==> !covers(strokes[k].points, x, y)
    ensures Paint(strokes, covers, x, y) == 0
  {
    if strokes != [] {
      var prefix := strokes[..|strokes| - 1];
      assert forall k :: 0 <= k < |prefix| ==> prefix[k] == strokes[k];
      PaintUncovered(prefix, covers, x, y);
    }
  }

  /** Painter's rule: a pixel holds the id of the last stroke that covers it. */
  lemma {:induction false} PaintLastCover(strokes: seq<Stroke>, covers: Coverage, x: int, y: int, k: nat)
    requires k < |strokes| && covers(strokes[k].points, x, y)
    requires forall j :: k < j < |strokes| ==> !covers(strokes[j].points, x, y)
    ensures Paint(strokes, covers, x, y) == strokes[k].id
  {
    if k < |strokes| - 1 {
      var prefix := strokes[..|strokes| - 1];
      assert forall j :: 0 <= j < |prefix| ==> prefix[j] == strokes[j];
      PaintLastCover(prefix, covers, x, y, k);
    }
  }

  /** The mask starts all 0: a pixel that no drawn polygon covers stays 0. */
  lemma UncoveredPixelStaysZero(objects: seq<AnnotatedObject>, classMapping: map<string, int>, order: seq<string>,
                                covers: Coverage, x: int, y: int)
    requires forall o :: o in objects && o.name in order && o.name in classMapping && Drawable(o)
                         ==> !covers(PolygonPoints(o.polygon.value), x, y)
    ensures MaskPixel(objects, classMapping, order, covers, x, y) == 0
  {
    var strokes := Strokes(objects, classMapping, order);
    forall k | 0 <= k < |strokes| ensures !covers(strokes[k].points, x, y) {
      StrokeOrigin(objects, classMapping, order, strokes[k]);
    }
    PaintUncovered(strokes, covers, x, y);
  }

  /** Strokes that miss the pixel leave it as it was. */
  lemma {:induction false} PaintMissing(a: seq<Stroke>, b: seq<Stroke>, covers: Coverage, x: int, y: int)
    requires forall s :: s in b ==> !covers(s.points, x, y)
    ensures Paint(a + b, covers, x, y) == Paint(a, covers, x, y)
    decreases |b|
  {
    if b == [] {
      assert a + b == a;
    } else {
      var b' := b[..|b| - 1];
      assert (a + b)[..|a + b| - 1] == a + b';
      assert (a + b)[|a + b| - 1] == b[|b| - 1];
      PaintMissing(a, b', covers, x, y);
    }
  }

  /** When some stroke of `c` covers the pixel and all of `c` share one id, that id wins. */
  lemma {:induction false} PaintUniform(a: seq<Stroke>, c: seq<Stroke>, v: int, covers: Coverage, x: int, y: int)
    requires exists s :: s in c && covers(s.points, x, y)
    requires forall s :: s in c ==> s.id == v
    ensures Paint(a + c, covers, x, y) == v
    decreases |c|
  {
    var c' := c[..|c| - 1];
    assert (a + c)[..|a + c| - 1] == a + c';
    assert (a + c)[|a + c| - 1] == c[|c| - 1];
    if !covers(c[|c| - 1].points, x, y) {
      var s :| s in c && covers(s.points, x, y);
      assert s in c';
      PaintUniform(a, c', v, covers, x, y);
    }
  }

  /** No stroke of a class after position `i` covers a pixel that no object of those classes covers. */
  lemma LaterStrokesMiss(objects: seq<AnnotatedObject>, classMapping: map<string, int>, order: seq<string>,
                         i: nat, covers: Coverage, x: int, y: int)
    requires i < |order|
    requires forall j, p :: i < j < |order| && p in objects && p.name == order[j] && Drawable(p)
                            ==> !covers(PolygonPoints(p.polygon.value), x, y)
    ensures forall s :: s in Strokes(objects, classMapping, order[i + 1..]) ==> !covers(s.points, x, y)
  {
    var later := order[i + 1..];
    forall s | s in Strokes(objects, classMapping, later) ensures !covers(s.points, x, y) {
      StrokeOrigin(objects, classMapping, later, s);
      var p :| p in objects && p.name in later && p.name in classMapping && Drawable(p)
               && s == StrokeOf(p, classMapping[p.name]);
      var j :| 0 <= j < |later| && later[j] == p.name;
      assert order[i + 1 + j] == p.name;
    }
  }

  /**
    A later class wins: if a drawable object of the mapped class `order[i]`
    covers the pixel and no drawable object of a class after it in the
    drawing order does, the pixel holds that class's id (0 included).
   */
  lemma LaterClassWins(objects: seq<AnnotatedObject>, classMapping: map<string, int>, order: seq<string>,
                       i: nat, o: AnnotatedObject, covers: Coverage, x: int, y: int)
    requires i < |order| && order[i] in classMapping
    requires o in objects && o.name == order[i] && Drawable(o) && covers(PolygonPoints(o.polygon.value), x, y)
    requires forall j, p :: i < j < |order| && p in objects && p.name == order[j] && Drawable(p)
                            ==> !covers(PolygonPoints(p.polygon.value), x, y)
    ensures MaskPixel(objects, classMapping, order, covers, x, y) == classMapping[order[i]]
  {
    var name := order[i];
    var front, later := order[..i], order[i + 1..];
    assert order == front + [name] + later;
    StrokesAppend(objects, classMapping, front + [name], later);
    StrokesAppend(objects, classMapping, front, [name]);
    StrokesOfOne(objects, classMapping, name);
    var a := Strokes(objects, classMapping, front);
    var c := ClassStrokes(objects, classMapping, name);
    var b := Strokes(objects, classMapping, later);
    LaterStrokesMiss(objects, classMapping, order, i, covers, x, y);
    PaintMissing(a + c, b, covers, x, y);
    FilterMembers(objects, name, o);
    ObjectStrokeComplete(Filter(objects, name), classMapping[name], o);
    ObjectStrokeIds(Filter(objects, name), classMapping[name]);
    PaintUniform(a, c, classMapping[name], covers, x, y);
  }

  /**
    The scenario of a road covering the whole canvas and a lane drawn after
    it: every pixel is road (1) except where the lane's polygon lies (2).
   */
  lemma RoadAndLane(road: PolygonTags, lane: PolygonTags, covers: Coverage, x: int, y: int)
    requires |PolygonPoints(road)| > 0 && |PolygonPoints(lane)| > 0
    requires covers(PolygonPoints(road), x, y)
    ensures MaskPixel([AnnotatedObject("road", Some(road)), AnnotatedObject("lane", Some(lane))],
                      map["road" := 1, "lane" := 2], ["road", "lane"], covers, x, y)
            == if covers(PolygonPoints(lane), x, y) then 2 else 1
  {
    var objects := [AnnotatedObject("road", Some(road)), AnnotatedObject("lane", Some(lane))];
    var classMapping := map["road" := 1, "lane" := 2];
    var order := ["road", "lane"];
    if covers(PolygonPoints(lane), x, y) {
      LaterClassWins(objects, classMapping, order, 1, objects[1], covers, x, y);
    } else {
      LaterClassWins(objects, classMapping, order, 0, objects[0], covers, x, y);
    }
  }

  // ---------------------------------------------------------------------
  // The imperative compositor

  /**
    `draw.polygon(points, fill=fill)`: every pixel the polygon covers takes
    the fill value; every other pixel keeps its value.
   */
  method FillPolygon(maskImage: array2<int>, points: seq<Point>, fill: int, covers: Coverage)
    modifies maskImage
    ensures forall y, x :: 0 <= y < maskImage.Length0 && 0 <= x < maskImage.Length1 ==>
              maskImage[y, x] == if covers(points, x, y) then fill else old(maskImage[y, x])
  {
    for y := 0 to maskImage.Length0
      invariant forall y', x :: 0 <= y' < maskImage.Length0 && 0 <= x < maskImage.Length1 ==>
                  maskImage[y', x] == if y' < y && covers(points, x, y') then fill else old(maskImage[y', x])
    {
      for x := 0 to maskImage.Length1
        invariant forall y', x' :: 0 <= y' < maskImage.Length0 && 0 <= x' < maskImage.Length1 ==>
                    maskImage[y', x'] == if (y' < y || (y' == y && x' < x)) && covers(points, x', y')
                                         then fill else old(maskImage[y', x'])
      {
        if covers(points, x, y) {
          maskImage[y, x] := fill;
        }
      }
    }
  }

  /** `np.array(mask_image)`: the rows of the image as values. */
  function Snapshot(maskImage: array2<int>): (rows: seq<seq<int>>)
    reads maskImage
    ensures |rows| == maskImage.Length0
    ensures forall y :: 0 <= y < |rows| ==> |rows[y]| == maskImage.Length1
    ensures forall y, x :: 0 <= y < |rows| && 0 <= x < maskImage.Length1 ==> rows[y][x] == maskImage[y, x]
  {
    seq(maskImage.Length0, (y: int) reads maskImage requires 0 <= y < maskImage.Length0 =>
      seq(maskImage.Length1, (x: int) reads maskImage requires 0 <= x < maskImage.Length1 => maskImage[y, x]))
  }

  /**
    The inner loop of `xml_polygon_to_mask`: draws, in document order, the
    polygon of every object of one class that has a polygon element with at
    least one vertex, filled with the class id. `drawn` is the strokes drawn
    before; the mask shows them on entry and shows them followed by this
    class's strokes on exit.
   */
  method DrawClass(maskImage: array2<int>, group: seq<AnnotatedObject>, classId: int, covers: Coverage,
                   ghost drawn: seq<Stroke>)
    requires forall y, x :: 0 <= y < maskImage.Length0 && 0 <= x < maskImage.Length1 ==>
               maskImage[y, x] == Paint(drawn, covers, x, y)
    modifies maskImage
    ensures forall y, x :: 0 <= y < maskImage.Length0 && 0 <= x < maskImage.Length1 ==>
              maskImage[y, x] == Paint(drawn + ObjectStrokes(group, classId), covers, x, y)
  {
    assert drawn + ObjectStrokes(group[..0], classId) == drawn;
    for j := 0 to |group|
      invariant forall y, x :: 0 <= y < maskImage.Length0 && 0 <= x < maskImage.Length1 ==>
                  maskImage[y, x] == Paint(drawn + ObjectStrokes(group[..j], classId), covers, x, y)
    {
      var obj := group[j];
      ghost var before := drawn + ObjectStrokes(group[..j], classId);
      FlattenStep(ObjectStrokeOf(classId), group, j);
      assert drawn + ObjectStrokes(group[..j + 1], classId) == before + ObjectStroke(obj, classId);
      assert before + [] == before;
      if obj.polygon.Some? {
        var points := ExtractPoints(obj.polygon.value);
        if |points| > 0 {
          FillPolygon(maskImage, points, classId, covers);
          ghost var after := before + [Stroke(points, classId)];
          assert drawn + ObjectStrokes(group[..j + 1], classId) == after;
          assert after[..|after| - 1] == before;
        }
      }
    }
    assert group[..|group|] == group;
  }

  /**
    `xml_polygon_to_mask`: `annotation` is the parsed XML file, `None` when
    the file does not exist. The result has `height` rows of `width` pixels,
    each pixel holding `MaskPixel`.
   */
  method XmlPolygonToMask(annotation: Option<seq<AnnotatedObject>>, width: nat, height: nat,
                          classMapping: map<string, int>, drawingOrder: seq<string>, covers: Coverage)
    returns (mask: Option<seq<seq<int>>>)
    ensures mask.None? <==> annotation.None?
    ensures mask.Some? ==> |mask.value| == height
    ensures mask.Some? ==> forall y :: 0 <= y < height ==> |mask.value[y]| == width
    ensures mask.Some? ==> forall y, x :: 0 <= y < height && 0 <= x < width ==>
              mask.value[y][x] == MaskPixel(annotation.value, classMapping, drawingOrder, covers, x, y)
  {
    if annotation.None? {
      return None;
    }
    var objects := annotation.value;
    var maskImage := new int[height, width]((y, x) => 0);
    var objectsByName := GroupByName(objects);
    for c := 0 to |drawingOrder|
      invariant forall y, x :: 0 <= y < height && 0 <= x < width ==>
                  maskImage[y, x] == Paint(Strokes(objects, classMapping, drawingOrder[..c]), covers, x, y)
    {
      ghost var drawn := Strokes(objects, classMapping, drawingOrder[..c]);
      var className := drawingOrder[c];
      FlattenStep(ClassStrokesOf(objects, classMapping), drawingOrder, c);
      var classId := if className in classMapping then classMapping[className] else 0;
      if classId == 0 && className !in classMapping {
        assert drawn + [] == drawn;
        continue;
      }
      if className in objectsByName {
        DrawClass(maskImage, objectsByName[className], classId, covers, drawn);
      } else {
        FilterNone(objects, className);
        assert drawn == drawn + ObjectStrokes(Filter(objects, className), classId);
      }
    }
    assert drawingOrder[..|drawingOrder|] == drawingOrder;
    return Some(Snapshot(maskImage));
  }

  // ---------------------------------------------------------------------
  // Colouring a mask

  newtype byte = b: int | 0 <= b < 256

  /** One pixel of the `height x width x 3` colour image. */
  datatype Rgb = Rgb(r: byte, g: byte, b: byte)

  const Black := Rgb(0, 0, 0)

  /** The colour of a class id: its entry in `classColors`, black when it has none. */
  function ColorOf(classColors: map<int, Rgb>, id: int): Rgb {
    if id in classColors then classColors[id] else Black
  }

  /** `np.where(mask == id, color, visual)` */
  function Where(mask: seq<seq<int>>, id: int, color: Rgb, visual: seq<seq<Rgb>>): (r: seq<seq<Rgb>>)
    requires |visual| == |mask| && forall y :: 0 <= y < |mask| ==> |visual[y]| == |mask[y]|
    ensures |r| == |mask| && forall y :: 0 <= y < |mask| ==> |r[y]| == |mask[y]|
    ensures forall y, x :: 0 <= y < |mask| && 0 <= x < |mask[y]| ==>
              r[y][x] == if mask[y][x] == id then color else visual[y][x]
  {
    seq(|mask|, (y: int) requires 0 <= y < |mask| =>
      seq(|mask[y]|, (x: int) requires 0 <= x < |mask[y]| => if mask[y][x] == id then color else visual[y][x]))
  }

  /** A non-empty set of ids has a member to pick. */
  lemma NonEmptyHasMember(ids: set<int>)
    requires ids != {}
    ensures exists id :: id in ids
  {
    if forall id :: id !in ids {
      assert false;
    }
  }

  /**
    `visualize_mask`: starts from an all-black image and, for each entry of
    `classColors` in whatever order the dictionary yields them, colours the
    pixels holding that id. Each pixel ends up with the colour of its id.
   */
  method VisualizeMask(mask: seq<seq<int>>, classColors: map<int, Rgb>) returns (visual: seq<seq<Rgb>>)
    ensures |visual| == |mask|
    ensures forall y :: 0 <= y < |mask| ==> |visual[y]| == |mask[y]|
    ensures forall y, x :: 0 <= y < |mask| && 0 <= x < |mask[y]| ==> visual[y][x] == ColorOf(classColors, mask[y][x])
  {
    visual := seq(|mask|, (y: int) requires 0 <= y < |mask| => seq(|mask[y]|, (x: int) => Black));
    var remaining := classColors.Keys;
    while remaining != {}
      invariant remaining <= classColors.Keys
      invariant |visual| == |mask| && forall y :: 0 <= y < |mask| ==> |visual[y]| == |mask[y]|
      invariant forall y, x :: 0 <= y < |mask| && 0 <= x < |mask[y]| ==>
                  visual[y][x] == if mask[y][x] in remaining then Black else ColorOf(classColors, mask[y][x])
      decreases remaining
    {
      NonEmptyHasMember(remaining);
      var classId :| classId in remaining;
      visual := Where(mask, classId, classColors[classId], visual);
      remaining := remaining - {classId};
    }
  }

  /** An all-background mask colours to one solid colour, that of id 0 (black when 0 has no colour). */
  lemma ZeroMaskIsSolid(mask: seq<seq<int>>, classColors: map<int, Rgb>, visual: seq<seq<Rgb>>)
    requires forall y, x :: 0 <= y < |mask| && 0 <= x < |mask[y]| ==> mask[y][x] == 0
    requires |visual| == |mask| && forall y :: 0 <= y < |mask| ==> |visual[y]| == |mask[y]|
    requires forall y, x :: 0 <= y < |mask| && 0 <= x < |mask[y]| ==> visual[y][x] == ColorOf(classColors, mask[y][x])
    ensures forall y, x :: 0 <= y < |mask| && 0 <= x < |mask[y]| ==>
              visual[y][x] == if 0 in classColors then classColors[0] else Black
  {
  }
}
