/**
 * JSON objects (section 4 of RFC 7159): an ordered list of name/value
 * pairs that keeps repeated names, fixed at construction. Lookup returns
 * every value stored under a name; conversion to a native map refuses
 * repeated names instead of letting one overwrite another.
 *
 * The object is generic in the type V of its member values. What the rest
 * of the library supplies is passed in as functions: the conversion of an
 * AST node into a value, the comparison of a stored name with a lookup
 * key, and the native projections of names and values.
 */
module JsonObject {
  import opened Base

  /** The AST node of an object: its tag, then one (name, value) pair of AST nodes per member. */
  datatype ObjectAst<A> = ObjectAst(tag: Tag, pairs: seq<(A, A)>)

  /** An object value: its pairs in the order written, repeated names included. */
  datatype Object<V> = Object(assoc: seq<(V, V)>)

  // ---------------------------------------------------------------------
  // from_ast

  /**
   * Converting every name and value, pair by pair and name before value;
   * the first conversion that fails decides the error.
   */
  function ConvertPairs<A, V>(ps: seq<(A, A)>, convert: A -> Result<V>): Result<seq<(V, V)>>
    decreases |ps|
  {
    if |ps| == 0 then Ok([])
    else
      var front := ConvertPairs(ps[..|ps| - 1], convert);
      if front.Err? then front
      else
        var k := convert(ps[|ps| - 1].0);
        if k.Err? then Err(k.error)
        else
          var v := convert(ps[|ps| - 1].1);
          if v.Err? then Err(v.error)
          else Ok(front.value + [(k.value, v.value)])
  }

  /** Once a prefix fails, the whole conversion fails with the same error. */
  lemma {:induction false} ConvertPairsPrefixErr<A, V>(ps: seq<(A, A)>, i: nat, convert: A -> Result<V>)
    requires i <= |ps| && ConvertPairs(ps[..i], convert).Err?
    ensures ConvertPairs(ps, convert) == ConvertPairs(ps[..i], convert)
    decreases |ps|
  {
    if i < |ps| {
      assert ps[..|ps| - 1][..i] == ps[..i];
      ConvertPairsPrefixErr(ps[..|ps| - 1], i, convert);
    } else {
      assert ps[..i] == ps;
    }
  }

  predicate PairConverts<A, V>(p: (A, A), convert: A -> Result<V>)
  {
    convert(p.0).Ok? && convert(p.1).Ok?
  }

  /**
   * Conversion succeeds exactly when every name and value converts; it then
   * keeps the number and the order of the pairs, each pair converted in place.
   */
  lemma {:induction false} ConvertPairsOk<A, V>(ps: seq<(A, A)>, convert: A -> Result<V>)
    ensures ConvertPairs(ps, convert).Ok? <==> forall i :: 0 <= i < |ps| ==> PairConverts(ps[i], convert)
    ensures ConvertPairs(ps, convert).Ok? ==>
      var ys := ConvertPairs(ps, convert).value;
      && |ys| == |ps|
      && forall i :: 0 <= i < |ps| ==> ys[i] == (convert(ps[i].0).value, convert(ps[i].1).value)
    decreases |ps|
  {
    if |ps| > 0 {
      var front := ps[..|ps| - 1];
      ConvertPairsOk(front, convert);
      assert forall i :: 0 <= i < |front| ==> front[i] == ps[i];
    }
  }

  /** Pair i is the first that does not convert, and `e` is the error of its first failing conversion. */
  predicate FirstFailure<A, V>(ps: seq<(A, A)>, i: int, convert: A -> Result<V>, e: Error)
  {
    && 0 <= i < |ps|
    && (forall j :: 0 <= j < i ==> PairConverts(ps[j], convert))
    && (if convert(ps[i].0).Err? then e == convert(ps[i].0).error
        else convert(ps[i].1).Err? && e == convert(ps[i].1).error)
  }

  /**
   * A failed conversion reports the error of the first name or value, in
   * reading order, that does not convert.
   */
  lemma {:induction false} ConvertPairsErr<A, V>(ps: seq<(A, A)>, convert: A -> Result<V>)
    requires ConvertPairs(ps, convert).Err?
    ensures exists i :: FirstFailure(ps, i, convert, ConvertPairs(ps, convert).error)
    decreases |ps|
  {
    var front := ps[..|ps| - 1];
    if ConvertPairs(front, convert).Err? {
      ConvertPairsErr(front, convert);
      var i :| FirstFailure(front, i, convert, ConvertPairs(front, convert).error);
      assert forall j :: 0 <= j <= i ==> front[j] == ps[j];
      assert FirstFailure(ps, i, convert, ConvertPairs(ps, convert).error);
    } else {
      ConvertPairsOk(front, convert);
      var i := |ps| - 1;
      assert forall j :: 0 <= j < i ==> front[j] == ps[j];
      assert FirstFailure(ps, i, convert, ConvertPairs(ps, convert).error);
    }
  }

  /** from_ast: reject any tag but :object, otherwise convert every pair and keep the list. */
  method FromAst<A, V>(ast: ObjectAst<A>, convert: A -> Result<V>) returns (r: Result<Object<V>>)
    ensures ast.tag != ObjectTag ==> r == Err(WrongTag)
    ensures ast.tag == ObjectTag ==>
      var c := ConvertPairs(ast.pairs, convert);
      && (r.Ok? <==> c.Ok?)
      && (r.Ok? ==> r.value == Object(c.value))
      && (r.Err? ==> r.error == c.error)
  {
    if ast.tag != ObjectTag {
      return Err(WrongTag);
    }
    var ps := ast.pairs;
    var acc: seq<(V, V)> := [];
    var i := 0;
    while i < |ps|
      invariant 0 <= i <= |ps|
      invariant ConvertPairs(ps[..i], convert) == Ok(acc)
    {
      assert ps[..i + 1][..i] == ps[..i];
      var k := convert(ps[i].0);
      if k.Err? {
        ConvertPairsPrefixErr(ps, i + 1, convert);
        return Err(k.error);
      }
      var v := convert(ps[i].1);
      if v.Err? {
        ConvertPairsPrefixErr(ps, i + 1, convert);
        return Err(v.error);
      }
      acc := acc + [(k.value, v.value)];
      i := i + 1;
    }
    assert ps[..i] == ps;
    r := Ok(Object(acc));
  }

  // ---------------------------------------------------------------------
  // [] (multi-valued lookup)

  /** select the pairs whose name matches, then keep their values. */
  function Select<V, Q>(assoc: seq<(V, V)>, key: Q, eq: (V, Q) -> bool): (r: seq<V>)
    ensures |r| <= |assoc|
    decreases |assoc|
  {
    if |assoc| == 0 then []
    else
      var last := assoc[|assoc| - 1];
      Select(assoc[..|assoc| - 1], key, eq) + (if eq(last.0, key) then [last.1] else [])
  }

  /** []: the values of all pairs whose name equals the key. */
  function Lookup<V, Q>(o: Object<V>, key: Q, eq: (V, Q) -> bool): (r: seq<V>)
    ensures |r| <= |o.assoc|
  {
    Select(o.assoc, key, eq)
  }

  /** The positions of the pairs whose name matches the key, in increasing order. */
  function MatchIndices<V, Q>(assoc: seq<(V, V)>, key: Q, eq: (V, Q) -> bool): seq<nat>
    decreases |assoc|
  {
    if |assoc| == 0 then []
    else
      var n := |assoc| - 1;
      MatchIndices(assoc[..n], key, eq) + (if eq(assoc[n].0, key) then [n] else [])
  }

  /** The match positions are increasing, in range, and exactly the positions whose name matches. */
  lemma {:induction false} MatchIndicesSpec<V, Q>(assoc: seq<(V, V)>, key: Q, eq: (V, Q) -> bool)
    ensures var idx := MatchIndices(assoc, key, eq);
      && (forall j :: 0 <= j < |idx| ==> idx[j] < |assoc|)
      && (forall j, l :: 0 <= j < l < |idx| ==> idx[j] < idx[l])
      && (forall i :: 0 <= i < |assoc| ==> (i in idx <==> eq(assoc[i].0, key)))
    decreases |assoc|
  {
    if |assoc| > 0 {
      var n := |assoc| - 1;
      MatchIndicesSpec(assoc[..n], key, eq);
      assert forall i :: 0 <= i < n ==> assoc[..n][i] == assoc[i];
    }
  }

  /**
   * Lookup is the values at the match positions, in the same order: every
   * matching pair contributes its value once, duplicates included, and no
   * other pair contributes.
   */
  lemma {:induction false} LookupByIndices<V, Q>(o: Object<V>, key: Q, eq: (V, Q) -> bool)
    ensures var idx := MatchIndices(o.assoc, key, eq);
      var r := Lookup(o, key, eq);
      && |r| == |idx|
      && forall j :: 0 <= j < |idx| ==> idx[j] < |o.assoc| && r[j] == o.assoc[idx[j]].1
  {
    SelectByIndices(o.assoc, key, eq);
  }

  lemma {:induction false} SelectByIndices<V, Q>(assoc: seq<(V, V)>, key: Q, eq: (V, Q) -> bool)
    ensures var idx := MatchIndices(assoc, key, eq);
      var r := Select(assoc, key, eq);
      && |r| == |idx|
      && forall j :: 0 <= j < |idx| ==> idx[j] < |assoc| && r[j] == assoc[idx[j]].1
    decreases |assoc|
  {
    if |assoc| > 0 {
      var n := |assoc| - 1;
      SelectByIndices(assoc[..n], key, eq);
    }
  }

  /** Lookup finds nothing exactly when no name matches the key. */
  lemma LookupEmptyIff<V, Q>(o: Object<V>, key: Q, eq: (V, Q) -> bool)
    ensures Lookup(o, key, eq) == [] <==> forall i :: 0 <= i < |o.assoc| ==> !eq(o.assoc[i].0, key)
  {
    LookupByIndices(o, key, eq);
    MatchIndicesSpec(o.assoc, key, eq);
    var idx := MatchIndices(o.assoc, key, eq);
    if |idx| > 0 {
      assert idx[0] in idx;
    }
  }

  /** Lookup over two runs of pairs is the lookup over the first followed by the lookup over the second. */
  lemma {:induction false} SelectAppend<V, Q>(a: seq<(V, V)>, b: seq<(V, V)>, key: Q, eq: (V, Q) -> bool)
    ensures Select(a + b, key, eq) == Select(a, key, eq) + Select(b, key, eq)
    decreases |b|
  {
    if |b| == 0 {
      assert a + b == a;
    } else {
      var n := |b| - 1;
      assert (a + b)[..|a + b| - 1] == a + b[..n];
      SelectAppend(a, b[..n], key, eq);
    }
  }

  /** A name written twice yields both of its values, in the order written. */
  lemma DuplicateNameExample()
    ensures Lookup(Object([(1, 10), (2, 20), (1, 30)]), 1, (k: int, q: int) => k == q) == [10, 30]
  {
    var eq := (k: int, q: int) => k == q;
    var ps: seq<(int, int)> := [(1, 10), (2, 20), (1, 30)];
    assert ps[..2] == [(1, 10), (2, 20)];
    assert ps[..2][..1] == [(1, 10)];
    assert ps[..2][..1][..0] == [];
    assert Select(ps[..2][..1], 1, eq) == [10];
    assert Select(ps[..2], 1, eq) == [10];
  }

  // ---------------------------------------------------------------------
  // each_pair

  /** each_pair: the pairs handed out one by one, each once, in the order stored. */
  method EachPair<V>(o: Object<V>) returns (ys: seq<(V, V)>)
    ensures |ys| == |o.assoc|
    ensures forall i :: 0 <= i < |ys| ==> ys[i] == o.assoc[i]
  {
    ys := [];
    var i := 0;
    while i < |o.assoc|
      invariant 0 <= i <= |o.assoc|
      invariant ys == o.assoc[..i]
    {
      ys := ys + [o.assoc[i]];
      i := i + 1;
    }
  }

  // ---------------------------------------------------------------------
  // plain_old_ruby_object / to_h

  /**
   * The native map built pair by pair: a name whose projection is already
   * stored is a conflict, raised before its value is converted or stored.
   */
  function ProjectPairs<V, K(==), W>(ps: seq<(V, V)>, keyOf: V -> K, valOf: V -> Result<W>): Result<map<K, W>>
    decreases |ps|
  {
    if |ps| == 0 then Ok(map[])
    else
      var front := ProjectPairs(ps[..|ps| - 1], keyOf, valOf);
      if front.Err? then front
      else
        var kk := keyOf(ps[|ps| - 1].0);
        if kk in front.value then Err(KeyConflict)
        else
          var vv := valOf(ps[|ps| - 1].1);
          if vv.Err? then Err(vv.error)
          else Ok(front.value[kk := vv.value])
  }

  /** No two pairs have names with the same projection. */
  predicate DistinctKeys<V, K(==)>(ps: seq<(V, V)>, keyOf: V -> K)
  {
    forall i, j :: 0 <= i < j < |ps| ==> keyOf(ps[i].0) != keyOf(ps[j].0)
  }

  predicate AllValuesProject<V, W>(ps: seq<(V, V)>, valOf: V -> Result<W>)
  {
    forall i :: 0 <= i < |ps| ==> valOf(ps[i].1).Ok?
  }

  /** plain_old_ruby_object (to_h): the pair list as a native map, or the first error met. */
  method ToHash<V, K(==), W>(o: Object<V>, keyOf: V -> K, valOf: V -> Result<W>) returns (r: Result<map<K, W>>)
    ensures r == ProjectPairs(o.assoc, keyOf, valOf)
  {
    var ps := o.assoc;
    var ret: map<K, W> := map[];
    var i := 0;
    while i < |ps|
      invariant 0 <= i <= |ps|
      invariant ProjectPairs(ps[..i], keyOf, valOf) == Ok(ret)
    {
      assert ps[..i + 1][..i] == ps[..i];
      var kk := keyOf(ps[i].0);
      if kk in ret {
        ProjectPairsPrefixErr(ps, i + 1, keyOf, valOf);
        return Err(KeyConflict);
      }
      var vv := valOf(ps[i].1);
      if vv.Err? {
        ProjectPairsPrefixErr(ps, i + 1, keyOf, valOf);
        return Err(vv.error);
      }
      ret := ret[kk := vv.value];
      i := i + 1;
    }
    assert ps[..i] == ps;
    r := Ok(ret);
  }

  lemma {:induction false} ProjectPairsPrefixErr<V, K, W>(ps: seq<(V, V)>, i: nat, keyOf: V -> K, valOf: V -> Result<W>)
    requires i <= |ps| && ProjectPairs(ps[..i], keyOf, valOf).Err?
    ensures ProjectPairs(ps, keyOf, valOf) == ProjectPairs(ps[..i], keyOf, valOf)
    decreases |ps|
  {
    if i < |ps| {
      assert ps[..|ps| - 1][..i] == ps[..i];
      ProjectPairsPrefixErr(ps[..|ps| - 1], i, keyOf, valOf);
    } else {
      assert ps[..i] == ps;
    }
  }

  /**
   * A successful conversion holds exactly the projected names, each mapped
   * to the projection of its own value: nothing was overwritten.
   */
  lemma {:induction false} ProjectPairsContents<V, K, W>(ps: seq<(V, V)>, keyOf: V -> K, valOf: V -> Result<W>)
    requires ProjectPairs(ps, keyOf, valOf).Ok?
    ensures var m := ProjectPairs(ps, keyOf, valOf).value;
      && m.Keys == (set i | 0 <= i < |ps| :: keyOf(ps[i].0))
      && forall i :: 0 <= i < |ps| ==> valOf(ps[i].1).Ok? && m[keyOf(ps[i].0)] == valOf(ps[i].1).value
    decreases |ps|
  {
    if |ps| > 0 {
      var n := |ps| - 1;
      var front := ps[..n];
      ProjectPairsContents(front, keyOf, valOf);
      assert forall i :: 0 <= i < n ==> front[i] == ps[i];
      var mf := ProjectPairs(front, keyOf, valOf).value;
      var kk := keyOf(ps[n].0);
      var m := ProjectPairs(ps, keyOf, valOf).value;
      assert kk !in mf && m == mf[kk := valOf(ps[n].1).value];
      assert (set i | 0 <= i < |ps| :: keyOf(ps[i].0))
          == (set i | 0 <= i < n :: keyOf(front[i].0)) + {kk};
      forall i | 0 <= i < |ps|
        ensures valOf(ps[i].1).Ok? && m[keyOf(ps[i].0)] == valOf(ps[i].1).value
      {
        if i < n {
          assert keyOf(front[i].0) in mf;
        }
      }
    }
  }

  /** The conversion succeeds exactly when the projected names are distinct and every value projects. */
  lemma {:induction false} ProjectPairsOkIff<V, K, W>(ps: seq<(V, V)>, keyOf: V -> K, valOf: V -> Result<W>)
    ensures ProjectPairs(ps, keyOf, valOf).Ok? <==> DistinctKeys(ps, keyOf) && AllValuesProject(ps, valOf)
    decreases |ps|
  {
    if |ps| > 0 {
      var n := |ps| - 1;
      var front := ps[..n];
      ProjectPairsOkIff(front, keyOf, valOf);
      assert forall i :: 0 <= i < n ==> front[i] == ps[i];
      if ProjectPairs(front, keyOf, valOf).Ok? {
        ProjectPairsContents(front, keyOf, valOf);
        var kk := keyOf(ps[n].0);
        if kk in ProjectPairs(front, keyOf, valOf).value {
          var i :| 0 <= i < n && keyOf(front[i].0) == kk;
          assert keyOf(ps[i].0) == keyOf(ps[n].0);
        }
      }
    }
  }

  /** With every value projecting, a repeated name is always reported as a key conflict. */
  lemma {:induction false} RepeatedNameConflicts<V, K, W>(ps: seq<(V, V)>, keyOf: V -> K, valOf: V -> Result<W>)
    requires AllValuesProject(ps, valOf) && !DistinctKeys(ps, keyOf)
    ensures ProjectPairs(ps, keyOf, valOf) == Err(KeyConflict)
    decreases |ps|
  {
    var n := |ps| - 1;
    var front := ps[..n];
    assert forall i :: 0 <= i < n ==> front[i] == ps[i];
    if !DistinctKeys(front, keyOf) {
      RepeatedNameConflicts(front, keyOf, valOf);
    } else {
      ProjectPairsOkIff(front, keyOf, valOf);
      ProjectPairsContents(front, keyOf, valOf);
      var i, j :| 0 <= i < j < |ps| && keyOf(ps[i].0) == keyOf(ps[j].0);
      assert j == n;
      assert keyOf(front[i].0) in ProjectPairs(front, keyOf, valOf).value;
    }
  }
}
