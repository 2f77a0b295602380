/**
 * Why parsing or template building stops. `abort(message, loc)` raises a
 * location-carrying ParseError; the evaluation helpers and the crashes of the
 * Python code (an index out of range, a missing attribute) raise errors
 * without a location.
 */
module Errors {
  import opened Yaml
  import opened OrderedMaps

  datatype Reason =
    | ExpectedStringOrMap
    | ExpectedMap
    | InvalidAttributeName
    | UnknownAttribute(name: string)
    | MissingRequired(missing: set<string>)
    | UnsupportedActivity(kind: string)
    | EmptyActivity
    | InvalidCallOperation(typeName: string)
    | MissingOperationName
    | ActionNotFound(name: string)
    | InputsNotMap(typeName: string)
    | FilterWithoutNode
    | FilterNotInTargets(node: string)
    | NotEnoughParameters(given: nat)
    | UnknownHost(host: string)
    | UnknownProperty(prop: string, known: seq<string>)
    | PropertiesNotCollected

  datatype Error =
    | ParseError(reason: Reason, loc: Loc)
    | RuntimeError(reason: Reason)

  datatype Result<+T> = Ok(value: T) | Err(error: Error) {
    predicate IsFailure() {
      Err?
    }

    function PropagateFailure<U>(): Result<U>
      requires Err?
    {
      Err(error)
    }

    function Extract(): T
      requires Ok?
    {
      value
    }
  }

  /**
   * Applies `f` to each element in order and collects the values; the first
   * element for which `f` fails stops the collection with its error.
   */
  function Collect<A, T>(xs: seq<A>, f: A -> Result<T>): Result<seq<T>> {
    if xs == [] then Ok([])
    else
      var done :- Collect(xs[..|xs| - 1], f);
      var y :- f(xs[|xs| - 1]);
      Ok(done + [y])
  }

  /** The collection succeeds exactly when every element succeeds. */
  lemma {:induction false} CollectOk<A, T>(xs: seq<A>, f: A -> Result<T>)
    ensures Collect(xs, f).Ok? <==> forall i :: 0 <= i < |xs| ==> f(xs[i]).Ok?
  {
    if xs != [] {
      var n := |xs| - 1;
      var init := xs[..n];
      assert forall i :: 0 <= i < n ==> init[i] == xs[i];
      CollectOk(init, f);
    }
  }

  /** A successful collection holds one value per element, in order. */
  lemma {:induction false} CollectValues<A, T>(xs: seq<A>, f: A -> Result<T>)
    requires Collect(xs, f).Ok?
    ensures |Collect(xs, f).value| == |xs|
    ensures forall i :: 0 <= i < |xs| ==> f(xs[i]) == Ok(Collect(xs, f).value[i])
  {
    if xs != [] {
      var n := |xs| - 1;
      var init := xs[..n];
      assert forall i :: 0 <= i < n ==> init[i] == xs[i];
      CollectValues(init, f);
    }
  }

  /** A failed collection carries the error of the first element that fails. */
  lemma {:induction false} CollectFirstError<A, T>(xs: seq<A>, f: A -> Result<T>)
    requires Collect(xs, f).Err?
    ensures exists i :: 0 <= i < |xs| && f(xs[i]) == Err(Collect(xs, f).error)
                        && forall j :: 0 <= j < i ==> f(xs[j]).Ok?
  {
    var n := |xs| - 1;
    var init := xs[..n];
    assert forall i :: 0 <= i < n ==> init[i] == xs[i];
    if Collect(init, f).Err? {
      CollectFirstError(init, f);
      var i :| 0 <= i < n && f(init[i]) == Err(Collect(init, f).error)
               && forall j :: 0 <= j < i ==> f(init[j]).Ok?;
      assert forall j :: 0 <= j < i ==> f(xs[j]).Ok?;
    } else {
      CollectOk(init, f);
    }
  }

  /** A failure right after a successful prefix is the outcome of the whole collection. */
  lemma {:induction false} CollectStopsAt<A, T>(xs: seq<A>, f: A -> Result<T>, i: nat)
    requires i < |xs| && Collect(xs[..i], f).Ok? && f(xs[i]).Err?
    ensures Collect(xs, f) == Err(f(xs[i]).error)
    decreases |xs|
  {
    var n := |xs| - 1;
    if i < n {
      assert xs[..n][..i] == xs[..i];
      CollectStopsAt(xs[..n], f, i);
    } else {
      assert xs[..n] == xs[..i];
    }
  }

  /**
   * `out[k] = f(k, v)` for each entry of a dict in order; the first entry for
   * which `f` fails stops the loop with its error.
   */
  function CollectEntries<K(==), V, T>(m: OMap<K, V>, f: (K, V) -> Result<T>): Result<OMap<K, T>> {
    if m == [] then Ok([])
    else
      var last := m[|m| - 1];
      match CollectEntries(m[..|m| - 1], f)
      case Err(e) => Err(e)
      case Ok(done) =>
        match f(last.0, last.1)
        case Err(e) => Err(e)
        case Ok(y) => Ok(Put(done, last.0, y))
  }

  /** The loop succeeds exactly when every entry does. */
  lemma {:induction false} CollectEntriesOk<K, V, T>(m: OMap<K, V>, f: (K, V) -> Result<T>)
    ensures CollectEntries(m, f).Ok? <==> forall i :: 0 <= i < |m| ==> f(m[i].0, m[i].1).Ok?
  {
    if m != [] {
      var n := |m| - 1;
      var init := m[..n];
      assert forall i :: 0 <= i < n ==> init[i] == m[i];
      CollectEntriesOk(init, f);
      var ri := CollectEntries(init, f);
      if ri.Ok? && f(m[n].0, m[n].1).Ok? {
        assert CollectEntries(m, f) == Ok(Put(ri.value, m[n].0, f(m[n].0, m[n].1).value));
      } else if ri.Ok? {
        assert !f(m[n].0, m[n].1).Ok?;
      } else {
        var i :| 0 <= i < n && !f(init[i].0, init[i].1).Ok?;
        assert !f(m[i].0, m[i].1).Ok?;
      }
    }
  }

  /**
   * Over a dict, a successful loop keeps the keys in their order, each value
   * computed from its own entry.
   */
  lemma {:induction false} CollectEntriesValues<K, V, T>(m: OMap<K, V>, f: (K, V) -> Result<T>)
    requires KeysUnique(m) && CollectEntries(m, f).Ok?
    ensures |CollectEntries(m, f).value| == |m|
    ensures forall i :: 0 <= i < |m| ==>
              CollectEntries(m, f).value[i].0 == m[i].0 && f(m[i].0, m[i].1) == Ok(CollectEntries(m, f).value[i].1)
  {
    if m != [] {
      var n := |m| - 1;
      var init, last := m[..n], m[n];
      assert forall i :: 0 <= i < n ==> init[i] == m[i];
      CollectEntriesValues(init, f);
      var done := CollectEntries(init, f).value;
      assert last.0 !in Keys(done) by {
        forall i | 0 <= i < |done| ensures Keys(done)[i] != last.0 {
          assert Keys(done)[i] == m[i].0;
        }
      }
      assert CollectEntries(m, f).value == done + [(last.0, f(last.0, last.1).value)];
    }
  }

  /** Both laws: success exactly when every entry succeeds, and then the same keys with their values. */
  lemma CollectEntriesExact<K, V, T>(m: OMap<K, V>, f: (K, V) -> Result<T>)
    requires KeysUnique(m)
    ensures CollectEntries(m, f).Ok? <==> forall i :: 0 <= i < |m| ==> f(m[i].0, m[i].1).Ok?
    ensures CollectEntries(m, f).Ok? ==>
              Keys(CollectEntries(m, f).value) == Keys(m)
              && forall i :: 0 <= i < |m| ==> f(m[i].0, m[i].1) == Ok(CollectEntries(m, f).value[i].1)
  {
    CollectEntriesOk(m, f);
    if CollectEntries(m, f).Ok? {
      CollectEntriesValues(m, f);
    }
  }

  /** A failure right after a successful prefix is the outcome of the whole loop. */
  lemma {:induction false} CollectEntriesStopsAt<K, V, T>(m: OMap<K, V>, f: (K, V) -> Result<T>, i: nat)
    requires i < |m| && CollectEntries(m[..i], f).Ok? && f(m[i].0, m[i].1).Err?
    ensures CollectEntries(m, f) == Err(f(m[i].0, m[i].1).error)
    decreases |m|
  {
    var n := |m| - 1;
    var init := m[..n];
    if i < n {
      assert init[..i] == m[..i];
      assert init[i] == m[i];
      CollectEntriesStopsAt(init, f, i);
    } else {
      assert init == m[..i];
    }
    assert CollectEntries(init, f).Err? || f(m[n].0, m[n].1).Err?;
  }
}
