/**
 The schema rewrite for the Codex backend: numeric `exclusiveMinimum` becomes an inclusive `minimum`
 on every object reachable through objects. Which instances the rewritten bounds accept, exactly.
 */
module Downlevel {
  import opened Common
  import opened Json

  /** `as_f64`: floats as they are, integers rounded. */
  function AsF64(round: real -> real, n: Number): real {
    match n case Integer(v) => round(v as real) case Float(a) => a
  }

  function NumberAt(m: map<string, Value>, key: string): Option<Number> {
    if key in m && m[key].Num? then Some(m[key].number) else None
  }

  predicate IsIntegerNode(m: map<string, Value>) {
    "type" in m && m["type"] == Str("integer")
  }

  /** The inclusive bound to use instead of `exclusive`, if the code finds one. */
  function Replacement(m: map<string, Value>, exclusive: Value): Option<Number> {
    if !exclusive.Num? then None
    else if !IsIntegerNode(m) then Some(exclusive.number)
    else
      match exclusive.number
      case Float(_) => None
      case Integer(v) => if v == U64_MAX then None else Some(Integer(v + 1))
  }

  function LowerMinimum(round: real -> real, m: map<string, Value>): map<string, Value> {
    if "exclusiveMinimum" !in m then m
    else
      var rest := m - {"exclusiveMinimum"};
      match Replacement(m, m["exclusiveMinimum"])
      case None => rest
      case Some(minimum) =>
        var current := NumberAt(rest, "minimum");
        if current.Some? && AsF64(round, current.value) >= AsF64(round, minimum) then rest
        else rest["minimum" := Num(minimum)]
  }

  function Children(round: real -> real, m: map<string, Value>): map<string, Value>
    decreases Obj(m), 0
  {
    map k | k in m :: assert m[k] < Obj(m); Rewrite(round, m[k])
  }

  /** Children first, then the node itself; arrays are not entered. */
  function Rewrite(round: real -> real, v: Value): Value
    decreases v, 1
  {
    match v
    case Obj(m) => Obj(LowerMinimum(round, Children(round, m)))
    case _ => v
  }

  // ---------------------------------------------------------------- idempotence

  /** No object reachable through objects still has the keyword. */
  predicate Clean(v: Value) {
    v.Obj? ==> "exclusiveMinimum" !in v.fields && forall k | k in v.fields :: Clean(v.fields[k])
  }

  lemma {:induction false} RewriteCleans(round: real -> real, v: Value)
    ensures Clean(Rewrite(round, v))
    decreases v
  {
    if v.Obj? {
      forall k | k in v.fields
        ensures Clean(Rewrite(round, v.fields[k]))
      {
        RewriteCleans(round, v.fields[k]);
      }
    }
  }

  lemma {:induction false} CleanIsFixed(round: real -> real, v: Value)
    requires Clean(v)
    ensures Rewrite(round, v) == v
    decreases v
  {
    if v.Obj? {
      forall k | k in v.fields
        ensures Rewrite(round, v.fields[k]) == v.fields[k]
      {
        CleanIsFixed(round, v.fields[k]);
      }
      assert Children(round, v.fields) == v.fields;
    }
  }

  /** Rewriting twice is rewriting once, for every schema. */
  lemma RewriteIdempotent(round: real -> real, v: Value)
    ensures Rewrite(round, Rewrite(round, v)) == Rewrite(round, v)
  {
    RewriteCleans(round, v);
    CleanIsFixed(round, Rewrite(round, v));
  }

  // ---------------------------------------------------------------- meaning

  /** The lower bounds of a node, as sections 6.2.4 and 6.2.5 of JSON Schema Validation read them. */
  predicate AboveBounds(m: map<string, Value>, x: real) {
    && (NumberAt(m, "minimum").Some? ==> x >= NumberAt(m, "minimum").value.Exact())
    && (NumberAt(m, "exclusiveMinimum").Some? ==> x > NumberAt(m, "exclusiveMinimum").value.Exact())
  }

  /** Rounding to the nearest float is monotone. */
  ghost predicate Rounds(round: real -> real) {
    forall a: real, b: real {:trigger round(a), round(b)} :: a <= b ==> round(a) <= round(b)
  }

  /** And it leaves the floats of this node as they are. */
  ghost predicate FloatsExact(round: real -> real, m: map<string, Value>) {
    forall key | key in m && m[key].Num? && m[key].number.Float? :: round(m[key].number.approx) == m[key].number.approx
  }

  /** The bound the node carries besides the exclusive one. */
  function Current(m: map<string, Value>): Option<Number> { NumberAt(m, "minimum") }

  /** The rewrite installs a bound of its own, as far as the code's float comparison can tell. */
  predicate Installs(round: real -> real, m: map<string, Value>)
    requires NumberAt(m, "exclusiveMinimum").Some?
  {
    var minimum := Replacement(m, m["exclusiveMinimum"]);
    minimum.Some? && (Current(m).None? || AsF64(round, Current(m).value) < AsF64(round, minimum.value))
  }

  lemma ChildrenKeepOwnKeywords(round: real -> real, m: map<string, Value>)
    ensures NumberAt(Children(round, m), "minimum") == NumberAt(m, "minimum")
    ensures NumberAt(Children(round, m), "exclusiveMinimum") == NumberAt(m, "exclusiveMinimum")
    ensures IsIntegerNode(Children(round, m)) == IsIntegerNode(m)
    ensures Children(round, m).Keys == m.Keys
  {
  }

  /** The bounds the rewritten node has, in terms of the original node. */
  lemma RewrittenBounds(round: real -> real, m: map<string, Value>)
    ensures var r := Rewrite(round, Obj(m)).fields;
            && NumberAt(r, "exclusiveMinimum").None?
            && (NumberAt(m, "exclusiveMinimum").None? ==> NumberAt(r, "minimum") == Current(m))
            && (NumberAt(m, "exclusiveMinimum").Some? ==>
                  NumberAt(r, "minimum")
                  == if Installs(round, m) then Replacement(m, m["exclusiveMinimum"]) else Current(m))
  {
    ChildrenKeepOwnKeywords(round, m);
  }

  predicate AcceptsInteger(m: map<string, Value>, n: int) { AboveBounds(m, n as real) }

  function Ceiling(x: real): int { -((-x).Floor) }

  /** The existing `minimum` alone excludes every integer up to the exclusive bound. */
  predicate MinimumSuffices(m: map<string, Value>)
    requires NumberAt(m, "exclusiveMinimum").Some?
  {
    Current(m).Some? && Ceiling(Current(m).value.Exact()) as real > m["exclusiveMinimum"].number.Exact()
  }

  lemma InstalledBoundIsTighter(round: real -> real, m: map<string, Value>)
    requires Rounds(round) && FloatsExact(round, m)
    requires NumberAt(m, "exclusiveMinimum").Some? && Installs(round, m) && Current(m).Some?
    ensures Current(m).value.Exact() < Replacement(m, m["exclusiveMinimum"]).value.Exact()
  {
  }

  lemma IntegerKept(round: real -> real, m: map<string, Value>, n: int)
    requires Rounds(round) && FloatsExact(round, m)
    requires IsIntegerNode(m) && NumberAt(m, "exclusiveMinimum").Some?
    requires Installs(round, m) || MinimumSuffices(m)
    ensures AcceptsInteger(Rewrite(round, Obj(m)).fields, n) == AcceptsInteger(m, n)
  {
    RewrittenBounds(round, m);
    var r := Rewrite(round, Obj(m)).fields;
    var x, e := n as real, m["exclusiveMinimum"].number;
    if Installs(round, m) {
      IntegerAboveSuccessor(n, e.value);
      assert AboveBounds(r, x) <==> x > e.Exact();
      if Current(m).Some? {
        InstalledBoundIsTighter(round, m);
      }
    } else {
      var c := Current(m).value.Exact();
      IntegerAboveCeiling(n, c);
      assert AboveBounds(r, x) <==> x >= c;
    }
  }

  lemma RealsKeepOrder(a: int, b: int)
    ensures a <= b ==> a as real <= b as real
    ensures a < b ==> a as real < b as real
  {
  }

  lemma IntegerAboveSuccessor(n: int, v: int)
    ensures n as real > v as real <==> n as real >= (v + 1) as real
  {
    RealsKeepOrder(v + 1, n);
    RealsKeepOrder(v, n);
    RealsKeepOrder(n, v + 1);
    RealsKeepOrder(n, v);
  }

  lemma IntegerAboveCeiling(n: int, c: real)
    ensures n as real >= c <==> n as real >= Ceiling(c) as real
  {
    var k := Ceiling(c);
    assert c <= k as real < c + 1.0;
    if n >= k {
      RealsKeepOrder(k, n);
    } else {
      RealsKeepOrder(n, k - 1);
      RealsKeepOrder(n, k);
      assert (k - 1) as real == k as real - 1.0;
    }
  }

  lemma IntegerGained(round: real -> real, m: map<string, Value>) returns (n: int)
    requires IsIntegerNode(m) && NumberAt(m, "exclusiveMinimum").Some?
    requires !Installs(round, m) && !MinimumSuffices(m)
    ensures AcceptsInteger(Rewrite(round, Obj(m)).fields, n) && !AcceptsInteger(m, n)
  {
    RewrittenBounds(round, m);
    n := if Current(m).Some? then Ceiling(Current(m).value.Exact()) else m["exclusiveMinimum"].number.Exact().Floor;
  }

  /** Integer nodes: the rewrite keeps the set of accepted integers if and only if it installs its own
      bound or the existing `minimum` already does the work. It installs none for a fractional or
      float-typed bound, for the largest `u64`, or when the two bounds round to the same float. */
  lemma IntegerMeaningKeptIff(round: real -> real, m: map<string, Value>)
    requires Rounds(round) && FloatsExact(round, m)
    requires IsIntegerNode(m) && NumberAt(m, "exclusiveMinimum").Some?
    ensures (forall n: int :: AcceptsInteger(Rewrite(round, Obj(m)).fields, n) == AcceptsInteger(m, n))
       <==> Installs(round, m) || MinimumSuffices(m)
  {
    if Installs(round, m) || MinimumSuffices(m) {
      forall n: int
        ensures AcceptsInteger(Rewrite(round, Obj(m)).fields, n) == AcceptsInteger(m, n)
      {
        IntegerKept(round, m, n);
      }
    } else {
      var n := IntegerGained(round, m);
    }
  }

  /** Without an exclusive bound a node's lower bounds do not change. */
  lemma OtherNodesUntouched(round: real -> real, m: map<string, Value>, x: real)
    requires NumberAt(m, "exclusiveMinimum").None?
    ensures AboveBounds(Rewrite(round, Obj(m)).fields, x) == AboveBounds(m, x)
  {
    RewrittenBounds(round, m);
  }

  /** The two bounds compare as floats the way they compare as numbers. */
  ghost predicate ComparesExactly(round: real -> real, m: map<string, Value>)
    requires NumberAt(m, "exclusiveMinimum").Some?
  {
    Current(m).Some? ==>
      (AsF64(round, Current(m).value) < AsF64(round, m["exclusiveMinimum"].number)
       <==> Current(m).value.Exact() < m["exclusiveMinimum"].number.Exact())
  }

  /** Number nodes whose bounds compare exactly: the rewrite adds the boundary point, and nothing
      else, when the existing `minimum` does not exclude it. */
  lemma NumberGainsBoundaryOnly(round: real -> real, m: map<string, Value>, x: real)
    requires !IsIntegerNode(m) && NumberAt(m, "exclusiveMinimum").Some?
    requires ComparesExactly(round, m)
    ensures var e := m["exclusiveMinimum"].number.Exact();
            AboveBounds(Rewrite(round, Obj(m)).fields, x)
            <==> AboveBounds(m, x) || (x == e && (Current(m).Some? ==> Current(m).value.Exact() <= e))
  {
    RewrittenBounds(round, m);
  }

  /** Number nodes: nothing but the boundary point is gained if and only if the bounds compare exactly. */
  lemma NumberGainsBoundaryIff(round: real -> real, m: map<string, Value>)
    requires Rounds(round) && FloatsExact(round, m)
    requires !IsIntegerNode(m) && NumberAt(m, "exclusiveMinimum").Some?
    ensures (forall x: real :: AboveBounds(Rewrite(round, Obj(m)).fields, x) ==>
                                 AboveBounds(m, x) || x == m["exclusiveMinimum"].number.Exact())
       <==> ComparesExactly(round, m)
  {
    var r, e := Rewrite(round, Obj(m)).fields, m["exclusiveMinimum"].number;
    if ComparesExactly(round, m) {
      forall x: real | AboveBounds(r, x)
        ensures AboveBounds(m, x) || x == e.Exact()
      {
        NumberGainsBoundaryOnly(round, m, x);
      }
    } else {
      var c := Current(m).value;
      assert round(c.Exact()) == AsF64(round, c) && round(e.Exact()) == AsF64(round, e);
      RewrittenBounds(round, m);
      assert AboveBounds(r, c.Exact()) && !AboveBounds(m, c.Exact()) && c.Exact() != e.Exact();
    }
  }

  /** Bounds that round to the same float: a stricter exclusive bound is dropped and a whole interval
      of instances is gained. */
  lemma RoundingLosesBound(round: real -> real, low: JsonInt, high: JsonInt)
    requires low + 1 < high && round(low as real) == round(high as real)
    ensures var m := map["minimum" := Num(Integer(low)), "exclusiveMinimum" := Num(Integer(high))];
            && AboveBounds(Rewrite(round, Obj(m)).fields, (low + 1) as real)
            && !AboveBounds(m, (low + 1) as real)
  {
    var m := map["minimum" := Num(Integer(low)), "exclusiveMinimum" := Num(Integer(high))];
    assert m["exclusiveMinimum"] == Num(Integer(high)) && m["minimum"] == Num(Integer(low));
    RewrittenBounds(round, m);
  }

  /** A node keeps its set of keys, named properties included, if and only if none is the keyword. */
  lemma KeysKeptIff(round: real -> real, m: map<string, Value>)
    ensures Rewrite(round, Obj(m)).fields.Keys == m.Keys <==> "exclusiveMinimum" !in m
  {
    ChildrenKeepOwnKeywords(round, m);
  }

  /** The rewrite does not know a schema from a map of named properties: a property that is itself
      called `exclusiveMinimum` disappears from the schema. */
  lemma PropertyOfThatNameIsDropped(round: real -> real, schema: Value, others: map<string, Value>)
    requires !schema.Num?
    ensures "exclusiveMinimum" !in Rewrite(round, Obj(others["exclusiveMinimum" := schema])).fields
    ensures Rewrite(round, Obj(others["exclusiveMinimum" := schema])).fields.Keys == others.Keys - {"exclusiveMinimum"}
  {
    var m := others["exclusiveMinimum" := schema];
    ChildrenKeepOwnKeywords(round, m);
    assert m.Keys - {"exclusiveMinimum"} == others.Keys - {"exclusiveMinimum"};
  }

  /** Every key other than the two bounds keeps its rewritten value. */
  lemma OtherKeysKept(round: real -> real, m: map<string, Value>, key: string)
    requires key in m && key != "minimum" && key != "exclusiveMinimum"
    ensures key in Rewrite(round, Obj(m)).fields && Rewrite(round, Obj(m)).fields[key] == Rewrite(round, m[key])
  {
    assert Children(round, m)[key] == Rewrite(round, m[key]);
  }

  /** Everything but an object is left as it is, arrays and what is in them included. */
  lemma OtherValuesKept(round: real -> real, v: Value)
    requires !v.Obj?
    ensures Rewrite(round, v) == v
  {
  }

  /** The bound an integer node gets: the next integer, unless the existing minimum is as high, as floats. */
  lemma IntegerBoundIs(round: real -> real, m: map<string, Value>, v: JsonInt)
    requires "type" in m && m["type"] == Str("integer") && NumberAt(m, "exclusiveMinimum") == Some(Integer(v))
    requires v < 0xFFFF_FFFF_FFFF_FFFF
    ensures NumberAt(Rewrite(round, Obj(m)).fields, "minimum") ==
              if Current(m).Some? && AsF64(round, Current(m).value) >= round((v + 1) as real) then Current(m)
              else Some(Integer(v + 1))
  {
    RewrittenBounds(round, m);
  }

  /** The bound any other node gets: the exclusive one made inclusive, under the same comparison. */
  lemma NumberBoundIs(round: real -> real, m: map<string, Value>, n: Number)
    requires ("type" in m ==> m["type"] != Str("integer")) && NumberAt(m, "exclusiveMinimum") == Some(n)
    ensures NumberAt(Rewrite(round, Obj(m)).fields, "minimum") ==
              if Current(m).Some? && AsF64(round, Current(m).value) >= AsF64(round, n) then Current(m) else Some(n)
  {
    RewrittenBounds(round, m);
  }

  /** The bounds no integer node can be given: a fractional one, and the largest number there is. */
  lemma IntegerBoundIsDropped(round: real -> real, m: map<string, Value>)
    requires IsIntegerNode(m) && NumberAt(m, "exclusiveMinimum").Some?
    requires m["exclusiveMinimum"].number.Float? || m["exclusiveMinimum"].number.value == 0xFFFF_FFFF_FFFF_FFFF
    ensures NumberAt(Rewrite(round, Obj(m)).fields, "minimum") == Current(m)
  {
    RewrittenBounds(round, m);
  }
}
