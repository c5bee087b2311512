/**
 * Wicket's HTTP request utilities: query-string decoding into a caller's map, the removal
 * of `..` segments from a path, and the resolution of a relative path against a request URL.
 * Percent-decoding is a parameter (`decode`) whose behaviour the model does not fix.
 */
module RequestUtils {
  import opened Wrappers
  import opened JavaStrings

  // ---------------------------------------------------------------------------------------
  // Query-string decoding
  // ---------------------------------------------------------------------------------------

  /** The exception a tuple raises when `split("=")` leaves no `bits[0]` to read. */
  datatype DecodeError = ArrayIndexOutOfBounds(tuple: string)

  /**
   * The (key, value) pair one `&`-separated tuple yields: a tuple that splits into exactly
   * two parts on `=` gives both decoded; any other number of parts gives the decoded first
   * part and the empty value; no part at all (a tuple of `=` only) throws.
   */
  function TupleEntry(tuple: string, decode: string -> string): Result<(string, string), DecodeError> {
    var bits := Split(tuple, '=');
    if |bits| == 2 then Success((decode(bits[0]), decode(bits[1])))
    else if |bits| == 0 then Failure(ArrayIndexOutOfBounds(tuple))
    else Success((decode(bits[0]), []))
  }

  /** A tuple fails exactly when it is made of `=` characters only. */
  lemma TupleEntryFails(tuple: string, decode: string -> string)
    ensures TupleEntry(tuple, decode).Failure? <==>
      |tuple| > 0 && forall i :: 0 <= i < |tuple| ==> tuple[i] == '='
  {
    SplitEmpty(tuple, '=');
  }

  /** A tuple without `=` is a key with the empty value. */
  lemma TupleEntryKeyOnly(tuple: string, decode: string -> string)
    requires '=' !in tuple
    ensures TupleEntry(tuple, decode) == Success((decode(tuple), []))
  {
  }

  /** `k=v` with a non-empty value and no further `=` is the decoded pair. */
  lemma TupleEntryKeyValue(k: string, v: string, decode: string -> string)
    requires '=' !in k && '=' !in v && v != []
    ensures TupleEntry(k + "=" + v, decode) == Success((decode(k), decode(v)))
  {
    SplitPair(k, v, '=');
  }

  /** The outcome of each tuple, in order. */
  function TupleEntries(tuples: seq<string>, decode: string -> string): (r: seq<Result<(string, string), DecodeError>>)
    ensures |r| == |tuples| && forall t :: 0 <= t < |tuples| ==> r[t] == TupleEntry(tuples[t], decode)
  {
    seq(|tuples|, t requires 0 <= t < |tuples| => TupleEntry(tuples[t], decode))
  }

  /** The values of the outcomes in order, or the first exception among them. */
  function Collect<T>(results: seq<Result<T, DecodeError>>): Result<seq<T>, DecodeError> {
    if |results| == 0 then Success([])
    else
      match Collect(results[..|results| - 1])
      case Failure(e) => Failure(e)
      case Success(values) =>
        match Last(results)
        case Failure(e) => Failure(e)
        case Success(v) => Success(values + [v])
  }

  /**
   * Collecting succeeds exactly when every outcome is a value, and then keeps them all in
   * order; otherwise it gives the exception of the first outcome that is one.
   */
  lemma {:induction false} CollectSpec<T>(results: seq<Result<T, DecodeError>>)
    ensures var r := Collect(results);
      && (r.Success? <==> forall t :: 0 <= t < |results| ==> results[t].Success?)
      && (r.Success? ==> (|r.value| == |results| &&
            forall t :: 0 <= t < |results| ==> results[t] == Success(r.value[t])))
      && (r.Failure? ==> exists t :: (0 <= t < |results| && results[t] == Failure(r.error) &&
            (forall u :: 0 <= u < t ==> results[u].Success?)))
  {
    CollectSuccess(results);
    CollectFailure(results);
  }

  /** The successful half: collecting succeeds iff every outcome does, and keeps their values in order. */
  lemma {:induction false} CollectSuccess<T>(results: seq<Result<T, DecodeError>>)
    ensures var r := Collect(results);
      && (r.Success? <==> forall t :: 0 <= t < |results| ==> results[t].Success?)
      && (r.Success? ==> (|r.value| == |results| &&
            forall t :: 0 <= t < |results| ==> results[t] == Success(r.value[t])))
  {
    if |results| > 0 {
      var init := results[..|results| - 1];
      CollectSuccess(init);
      assert forall t :: 0 <= t < |init| ==> results[t] == init[t];
    }
  }

  /** The failing half: the exception collected is that of the first outcome that is one. */
  lemma {:induction false} CollectFailure<T>(results: seq<Result<T, DecodeError>>)
    ensures var r := Collect(results);
      r.Failure? ==> exists t :: (0 <= t < |results| && results[t] == Failure(r.error) &&
        (forall u :: 0 <= u < t ==> results[u].Success?))
  {
    if |results| > 0 {
      var init := results[..|results| - 1];
      CollectFailure(init);
      CollectSuccess(init);
      match Collect(init)
      case Failure(e) =>
        var t :| 0 <= t < |init| && init[t] == Failure(e) && (forall u :: 0 <= u < t ==> init[u].Success?);
        assert results[t] == init[t];
        assert forall u :: 0 <= u < t ==> results[u] == init[u];
      case Success(values) =>
        assert forall u :: 0 <= u < |init| ==> results[u] == init[u];
    }
  }

  /** Collecting one more outcome: an exception so far stays, else the outcome's value is appended or its exception taken. */
  lemma CollectStep<T>(results: seq<Result<T, DecodeError>>, t: nat)
    requires t < |results|
    ensures Collect(results[..t + 1]) ==
      match Collect(results[..t])
      case Failure(e) => Failure(e)
      case Success(values) =>
        match results[t]
        case Failure(e) => Failure(e)
        case Success(v) => Success(values + [v])
  {
    assert results[..t + 1][..t] == results[..t];
  }

  /** Once a prefix of the outcomes holds an exception, collecting all of them gives that exception. */
  lemma {:induction false} CollectPrefixFailure<T>(results: seq<Result<T, DecodeError>>, n: nat)
    requires n <= |results| && Collect(results[..n]).Failure?
    ensures Collect(results) == Collect(results[..n])
  {
    if n < |results| {
      var init := results[..|results| - 1];
      assert init[..n] == results[..n];
      CollectPrefixFailure(init, n);
    } else {
      assert results[..n] == results;
    }
  }

  /** The entries of all tuples in order, or the exception of the first tuple that throws. */
  function DecodeAll(tuples: seq<string>, decode: string -> string): Result<seq<(string, string)>, DecodeError> {
    Collect(TupleEntries(tuples, decode))
  }

  /** One entry per tuple, in order, when no tuple throws; otherwise the exception of the first one that does. */
  lemma DecodeAllEntries(tuples: seq<string>, decode: string -> string)
    ensures var r := DecodeAll(tuples, decode);
      && (r.Success? <==> forall t :: 0 <= t < |tuples| ==> TupleEntry(tuples[t], decode).Success?)
      && (r.Success? ==> (|r.value| == |tuples| &&
            forall t :: 0 <= t < |tuples| ==> TupleEntry(tuples[t], decode) == Success(r.value[t])))
      && (r.Failure? ==> exists t :: (0 <= t < |tuples| && TupleEntry(tuples[t], decode) == Failure(r.error) &&
            (forall u :: 0 <= u < t ==> TupleEntry(tuples[u], decode).Success?)))
  {
    CollectSpec(TupleEntries(tuples, decode));
  }

  /**
   * A `ValueMap` as `decodeParameters` sees it: a target that records every `add(key, value)`
   * in call order.
   */
  class ValueMap {
    var entries: seq<(string, string)>

    constructor ()
      ensures entries == []
    {
      entries := [];
    }

    method Add(key: string, value: string)
      modifies this
      ensures entries == old(entries) + [(key, value)]
    {
      entries := entries + [(key, value)];
    }
  }

  /**
   * `decodeParameters`: adds one entry per `&`-tuple, in order. A tuple that throws stops the
   * loop with the entries of the tuples before it already added.
   */
  method DecodeParameters(queryString: string, params: ValueMap, decode: string -> string)
    returns (error: Option<DecodeError>)
    modifies params
    ensures var all := DecodeAll(Split(queryString, '&'), decode);
      && (error.None? <==> all.Success?)
      && (all.Success? ==> params.entries == old(params.entries) + all.value)
      && (all.Failure? ==> error == Some(all.error))
    ensures var results := TupleEntries(Split(queryString, '&'), decode);
      error.Some? ==> exists t :: (0 <= t < |results| && Collect(results[..t]).Success? &&
        results[t].Failure? && params.entries == old(params.entries) + Collect(results[..t]).value)
  {
    var paramTuples := Split(queryString, '&');
    ghost var results := TupleEntries(paramTuples, decode);
    ghost var added: seq<(string, string)> := [];
    var t := 0;
    while t < |paramTuples|
      invariant 0 <= t <= |paramTuples|
      invariant Collect(results[..t]) == Success(added)
      invariant params.entries == old(params.entries) + added
    {
      CollectStep(results, t);
      var bits := Split(paramTuples[t], '=');
      if |bits| == 0 {
        // bits[0] throws ArrayIndexOutOfBoundsException
        assert results[t] == Failure(ArrayIndexOutOfBounds(paramTuples[t]));
        CollectPrefixFailure(results, t + 1);
        return Some(ArrayIndexOutOfBounds(paramTuples[t]));
      }
      var entry := if |bits| == 2 then (decode(bits[0]), decode(bits[1])) else (decode(bits[0]), []);
      assert results[t] == Success(entry);
      params.Add(entry.0, entry.1);
      added := added + [entry];
      t := t + 1;
    }
    assert results[..t] == results;
    return None;
  }

  /** The values of the entries with key `k`, in order of appearance. */
  function ValuesFor(entries: seq<(string, string)>, k: string): seq<string> {
    if |entries| == 0 then []
    else ValuesFor(entries[..|entries| - 1], k) + (if Last(entries).0 == k then [Last(entries).1] else [])
  }

  /** The multimap `decodeUrlParameters` builds: each key with the list of its values. */
  function Gather(entries: seq<(string, string)>): map<string, seq<string>> {
    if |entries| == 0 then map[]
    else
      var m := Gather(entries[..|entries| - 1]);
      var (k, v) := Last(entries);
      m[k := (if k in m then m[k] else []) + [v]]
  }

  /** Gathering one more entry appends its value to its key's list. */
  lemma GatherSnoc(entries: seq<(string, string)>, k: string, v: string)
    ensures var m := Gather(entries); Gather(entries + [(k, v)]) == m[k := (if k in m then m[k] else []) + [v]]
  {
    assert (entries + [(k, v)])[..|entries|] == entries;
  }

  /** Every key that occurs is gathered with all of its values in order of appearance, and no other key is. */
  lemma {:induction false} GatherValues(entries: seq<(string, string)>)
    ensures forall k :: k in Gather(entries) <==> ValuesFor(entries, k) != []
    ensures forall k :: k in Gather(entries) ==> Gather(entries)[k] == ValuesFor(entries, k)
  {
    if |entries| > 0 {
      GatherValues(entries[..|entries| - 1]);
    }
  }

  /** The total number of values in a multimap. */
  ghost function TotalSize(m: map<string, seq<string>>): nat
    decreases |m.Keys|
  {
    if m.Keys == {} then 0
    else
      var k :| k in m.Keys;
      assert |(m - {k}).Keys| < |m.Keys| by { assert (m - {k}).Keys == m.Keys - {k}; }
      |m[k]| + TotalSize(m - {k})
  }

  /** The total does not depend on which key is taken out first. */
  lemma {:induction false} TotalSizeRemove(m: map<string, seq<string>>, k: string)
    requires k in m
    ensures TotalSize(m) == |m[k]| + TotalSize(m - {k})
    decreases |m.Keys|
  {
    var j :| j in m.Keys && TotalSize(m) == |m[j]| + TotalSize(m - {j});
    if j != k {
      var mj, mk := m - {j}, m - {k};
      assert mj.Keys == m.Keys - {j} && k in mj && mj[k] == m[k];
      assert mk.Keys == m.Keys - {k} && j in mk && mk[j] == m[j];
      TotalSizeRemove(mj, k);
      TotalSizeRemove(mk, j);
      assert mj - {k} == mk - {j};
    }
  }

  /** Gathering loses no value and invents none: the total count is the number of entries. */
  lemma {:induction false} GatherTotal(entries: seq<(string, string)>)
    ensures TotalSize(Gather(entries)) == |entries|
  {
    if |entries| > 0 {
      var init := entries[..|entries| - 1];
      var m := Gather(init);
      var (k, v) := Last(entries);
      var m' := Gather(entries);
      GatherTotal(init);
      TotalSizeRemove(m', k);
      assert m' - {k} == m - {k};
      if k in m {
        TotalSizeRemove(m, k);
      } else {
        assert m - {k} == m;
      }
    }
  }

  /** A caller's `java.util.Map` from key to value array, as `decodeUrlParameters` writes it. */
  class ParameterMap {
    var entries: map<string, seq<string>>

    constructor ()
      ensures entries == map[]
    {
      entries := map[];
    }

    method Put(key: string, values: seq<string>)
      modifies this
      ensures entries == old(entries)[key := values]
    {
      entries := entries[key := values];
    }

    /**
     * The closing loop of `decodeUrlParameters`: puts every gathered key with its list of values
     * (turned into a `String[]`), one key at a time, in the temporary map's iteration order.
     */
    method PutGathered(m: map<string, seq<string>>)
      modifies this
      ensures entries == old(entries) + m
    {
      var keys := m.Keys;
      while keys != {}
        invariant keys <= m.Keys
        invariant entries == old(entries) + map k | k in m.Keys - keys :: m[k]
        decreases keys
      {
        var key :| key in keys;
        Put(key, m[key]);
        keys := keys - {key};
      }
      assert m == map k | k in m.Keys - keys :: m[k];
    }
  }

  /**
   * `decodeUrlParameters`: gathers the values of each key in a temporary map and then puts
   * every gathered key into `parameters`, overwriting it there; other keys stay as they were.
   * A tuple that throws does so before `parameters` is touched.
   */
  method DecodeUrlParameters(queryString: string, parameters: ParameterMap, decode: string -> string)
    returns (error: Option<DecodeError>)
    modifies parameters
    ensures var all := DecodeAll(Split(queryString, '&'), decode);
      && (error.None? <==> all.Success?)
      && (all.Failure? ==> error == Some(all.error) && parameters.entries == old(parameters.entries))
      && (all.Success? ==> parameters.entries == old(parameters.entries) + Gather(all.value))
  {
    var temp: map<string, seq<string>> := map[];
    var paramTuples := Split(queryString, '&');
    ghost var results := TupleEntries(paramTuples, decode);
    ghost var gathered: seq<(string, string)> := [];
    var t := 0;
    while t < |paramTuples|
      invariant 0 <= t <= |paramTuples|
      invariant Collect(results[..t]) == Success(gathered)
      invariant temp == Gather(gathered)
      invariant parameters.entries == old(parameters.entries)
    {
      CollectStep(results, t);
      var bits := Split(paramTuples[t], '=');
      if |bits| == 0 {
        // bits[0] throws ArrayIndexOutOfBoundsException
        assert results[t] == Failure(ArrayIndexOutOfBounds(paramTuples[t]));
        CollectPrefixFailure(results, t + 1);
        return Some(ArrayIndexOutOfBounds(paramTuples[t]));
      }
      var key := decode(bits[0]);
      var value := if |bits| == 2 then decode(bits[1]) else [];
      assert results[t] == Success((key, value));
      var l := if key in temp then temp[key] else [];
      temp := temp[key := l + [value]];
      GatherSnoc(gathered, key, value);
      gathered := gathered + [(key, value)];
      t := t + 1;
    }
    assert results[..t] == results;

    parameters.PutGathered(temp);
    return None;
  }

  // ---------------------------------------------------------------------------------------
  // removeDoubleDots
  // ---------------------------------------------------------------------------------------

  /** A non-empty segment directly followed by `..` is removed together with it. */
  predicate Cancels(segment: string, next: string) {
    |segment| > 0 && next == ".."
  }

  /** No segment of `segments` is cancelled by the one after it. */
  predicate Irreducible(segments: seq<string>) {
    forall k :: 0 <= k < |segments| - 1 ==> !Cancels(segments[k], segments[k + 1])
  }

  /** Shifts one segment onto a reduced stack, cancelling the top when it can. */
  function Push(stack: seq<string>, segment: string): seq<string> {
    if |stack| > 0 && Cancels(Last(stack), segment) then stack[..|stack| - 1] else stack + [segment]
  }

  /** Left-to-right reduction: a reference for the backtracking loop of `removeDoubleDots`. */
  function Reduce(stack: seq<string>, rest: seq<string>): seq<string>
    decreases |rest|
  {
    if |rest| == 0 then stack else Reduce(Push(stack, rest[0]), rest[1..])
  }

  /** The segments `removeDoubleDots` keeps. */
  function NormalizedSegments(path: string): seq<string> {
    Reduce([], Split(path, '/'))
  }

  /** The path `removeDoubleDots` returns: the kept segments joined, plus `/` when the input ended with one. */
  function NormalizedPath(path: string): string {
    Join(NormalizedSegments(path), '/') + (if EndsWith(path, '/') then "/" else "")
  }

  lemma PushIrreducible(stack: seq<string>, segment: string)
    requires Irreducible(stack)
    ensures Irreducible(Push(stack, segment))
  {
  }

  /** Reducing onto an irreducible stack gives an irreducible result. */
  lemma {:induction false} ReduceIrreducible(stack: seq<string>, rest: seq<string>)
    requires Irreducible(stack)
    ensures Irreducible(Reduce(stack, rest))
    decreases |rest|
  {
    if |rest| > 0 {
      PushIrreducible(stack, rest[0]);
      ReduceIrreducible(Push(stack, rest[0]), rest[1..]);
    }
  }

  /** After `removeDoubleDots` no non-empty segment is directly followed by `..`. */
  lemma NormalizedSegmentsIrreducible(path: string)
    ensures Irreducible(NormalizedSegments(path))
  {
    ReduceIrreducible([], Split(path, '/'));
  }

  /** Without `..` segments nothing is cancelled. */
  lemma {:induction false} ReduceWithoutDoubleDots(stack: seq<string>, rest: seq<string>)
    requires forall i :: 0 <= i < |rest| ==> rest[i] != ".."
    ensures Reduce(stack, rest) == stack + rest
    decreases |rest|
  {
    if |rest| > 0 {
      ReduceWithoutDoubleDots(stack + [rest[0]], rest[1..]);
      assert stack + [rest[0]] + rest[1..] == stack + rest;
    }
  }

  /** A path without `..` segments comes back unchanged, except that trailing slashes collapse to one. */
  lemma NormalizedPathWithoutDoubleDots(path: string)
    requires forall i :: 0 <= i < |Split(path, '/')| ==> Split(path, '/')[i] != ".."
    ensures NormalizedPath(path) == StripTrailing(path, '/') + (if EndsWith(path, '/') then "/" else "")
  {
    ReduceWithoutDoubleDots([], Split(path, '/'));
    assert [] + Split(path, '/') == Split(path, '/');
    JoinSplit(path, '/');
  }

  /** Stepping over a segment that the previous one does not cancel. */
  lemma ReduceAdvance(c: seq<string>, i: nat)
    requires i < |c|
    requires i > 0 ==> !Cancels(c[i - 1], c[i])
    ensures Reduce(c[..i], c[i..]) == Reduce(c[..i + 1], c[i + 1..])
  {
    assert c[i..][1..] == c[i + 1..];
    assert c[..i] + [c[i]] == c[..i + 1];
  }

  /** Removing a cancelling pair and stepping back one position keeps the reduction's result. */
  lemma ReduceCancel(c: seq<string>, i: nat)
    requires i + 1 < |c| && Cancels(c[i], c[i + 1])
    requires i > 0 ==> !Cancels(c[i - 1], c[i])
    requires i > 1 ==> !Cancels(c[i - 2], c[i - 1])
    ensures var c' := c[..i] + c[i + 2..]; var j := if i > 0 then i - 1 else 0;
      Reduce(c'[..j], c'[j..]) == Reduce(c[..i], c[i..])
  {
    var c' := c[..i] + c[i + 2..];
    ReduceAdvance(c, i);
    assert c[i + 1..][1..] == c[i + 2..];
    assert Push(c[..i + 1], c[i + 1]) == c[..i] by {
      assert c[..i + 1][..i] == c[..i];
    }
    assert Reduce(c[..i + 1], c[i + 1..]) == Reduce(c[..i], c[i + 2..]);
    if i > 0 {
      assert c'[..i - 1] == c[..i - 1];
      assert c'[i - 1..] == [c[i - 1]] + c[i + 2..];
      assert c'[i - 1..][1..] == c[i + 2..];
      assert c[..i - 1] + [c[i - 1]] == c[..i];
      if i > 1 {
        assert Last(c[..i - 1]) == c[i - 2];
      }
    } else {
      assert c' == c[2..];
    }
  }

  /** No segment before position `i` is cancelled by the one after it. */
  predicate CheckedUpTo(c: seq<string>, i: int) {
    forall k :: 0 <= k < i && k + 1 < |c| ==> !Cancels(c[k], c[k + 1])
  }

  /** Deleting a cancelling pair at `i` leaves the segments before `i - 1` checked. */
  lemma CancelKeepsChecked(c: seq<string>, i: nat)
    requires i + 1 < |c| && CheckedUpTo(c, i)
    ensures CheckedUpTo(c[..i] + c[i + 2..], i - 1)
  {
    var c' := c[..i] + c[i + 2..];
    assert forall k :: 0 <= k < i ==> c'[k] == c[k];
  }

  /** Stepping over an uncancelled segment extends the checked prefix by one. */
  lemma AdvanceKeepsChecked(c: seq<string>, i: nat)
    requires i < |c| && CheckedUpTo(c, i)
    requires i + 1 < |c| ==> !Cancels(c[i], c[i + 1])
    ensures CheckedUpTo(c, i + 1)
  {
  }

  /**
   * `removeDoubleDots`: splits the path on `/`, then walks the segment list, deleting each
   * non-empty segment that is followed by `..` together with that `..` and stepping back so
   * the segment before is checked again.
   */
  method RemoveDoubleDots(path: string) returns (r: string)
    ensures r == NormalizedPath(path)
    ensures EndsWith(path, '/') ==> EndsWith(r, '/')
  {
    var newComponents := Split(path, '/');
    ghost var segments := newComponents;
    var i := 0;
    while i < |newComponents|
      invariant 0 <= i <= |newComponents|
      invariant CheckedUpTo(newComponents, i)
      invariant Reduce(newComponents[..i], newComponents[i..]) == Reduce([], segments)
      decreases |newComponents|, |newComponents| - i
    {
      if i < |newComponents| - 1 {
        if |newComponents[i]| > 0 && newComponents[i + 1] == ".." {
          ReduceCancel(newComponents, i);
          CancelKeepsChecked(newComponents, i);
          ghost var before := newComponents;
          newComponents := newComponents[..i] + newComponents[i + 1..];
          newComponents := newComponents[..i] + newComponents[i + 1..];
          assert newComponents == before[..i] + before[i + 2..];
          i := i - 2;
          if i < -1 {
            i := -1;
          }
        } else {
          ReduceAdvance(newComponents, i);
          AdvanceKeepsChecked(newComponents, i);
        }
      } else {
        ReduceAdvance(newComponents, i);
        AdvanceKeepsChecked(newComponents, i);
      }
      i := i + 1;
    }
    assert newComponents[..i] == newComponents;
    r := Join(newComponents, '/');
    if EndsWith(path, '/') {
      r := r + "/";
    }
  }

  lemma SegmentsExample()
    ensures Split("a/b/../c", '/') == ["a", "b", "..", "c"]
  {
    assert Join(["a", "b", "..", "c"], '/') == "a/b/../c";
    SplitJoin(["a", "b", "..", "c"], '/');
  }

  /** `a/b/../c` becomes `a/c`. */
  lemma RemoveDoubleDotsExample()
    ensures NormalizedPath("a/b/../c") == "a/c"
  {
    SegmentsExample();
    ReduceExample();
    assert Join(["a", "c"], '/') == "a/c";
    assert !EndsWith("a/b/../c", '/');
  }

  lemma ReduceExample()
    ensures Reduce([], ["a", "b", "..", "c"]) == ["a", "c"]
  {
    assert ["a", "b", "..", "c"][1..] == ["b", "..", "c"];
    assert ["b", "..", "c"][1..] == ["..", "c"];
    assert ["..", "c"][1..] == ["c"];
    assert Push([], "a") == ["a"];
    assert Push(["a"], "b") == ["a", "b"];
    assert Push(["a", "b"], "..") == ["a"];
    assert Push(["a"], "c") == ["a", "c"];
  }

  /** `a/b/../c/` becomes `a/c/`: the trailing slash is kept. */
  lemma RemoveDoubleDotsTrailingExample()
    ensures NormalizedPath("a/b/../c/") == "a/c/"
  {
    assert "a/b/../c/" == "a/b/../c" + ['/'];
    SplitTrailingSeparator("a/b/../c", '/');
    RemoveDoubleDotsExample();
  }

  /** A `..` segment is itself non-empty, so it cancels a `..` that follows it. */
  lemma RemoveDoubleDotsLeadingParents()
    ensures NormalizedPath("../../x") == "x"
  {
    assert Join(["..", "..", "x"], '/') == "../../x";
    SplitJoin(["..", "..", "x"], '/');
    assert Reduce([], ["..", "..", "x"]) == ["x"];
  }

  // ---------------------------------------------------------------------------------------
  // toAbsolutePath(requestPath, relativePagePath)
  // ---------------------------------------------------------------------------------------

  /** The exception `StringBuffer.setLength(-1)` raises when there is no segment left to climb out of. */
  datatype PathError = StringIndexOutOfBounds

  /** The directory of the request: the path itself when it ends with `/`, else up to and including its last `/`. */
  function BaseOf(requestPath: string): string {
    if EndsWith(requestPath, '/') then requestPath
    else requestPath[..LastIndexOf(requestPath, '/') + 1]
  }

  /** Drops the trailing `/` and then everything after the last remaining `/`. */
  function ParentOf(base: string): string
    requires |base| > 0
  {
    var t := base[..|base| - 1];
    t[..LastIndexOf(t, '/') + 1]
  }

  /** Removes each leading `../` from `relative` together with one segment of `base`, then appends. */
  function Climb(base: string, relative: string): Result<string, PathError>
    decreases |relative|
  {
    if StartsWith(relative, "../") then
      if |base| == 0 then Failure(StringIndexOutOfBounds)
      else Climb(ParentOf(base), relative[3..])
    else Success(base + relative)
  }

  /** The absolute path `toAbsolutePath` computes, or the exception it raises. */
  function AbsolutePath(requestPath: string, relativePagePath: string): Result<string, PathError> {
    Climb(BaseOf(requestPath), relativePagePath)
  }

  /** A directory: empty, or ending with `/`. */
  predicate IsDirectory(s: string) {
    |s| == 0 || EndsWith(s, '/')
  }

  /** The base is a directory prefix of the request path, and what follows it has no `/`. */
  lemma BaseOfShape(requestPath: string)
    ensures var b := BaseOf(requestPath);
      && |b| <= |requestPath| && b == requestPath[..|b|]
      && IsDirectory(b)
      && (forall k :: |b| <= k < |requestPath| ==> requestPath[k] != '/')
      && (EndsWith(requestPath, '/') ==> b == requestPath)
  {
  }

  /** A request path naming a file has that file's directory as its base. */
  lemma BaseOfFile(directory: string, file: string)
    requires EndsWith(directory, '/') && '/' !in file && file != []
    ensures BaseOf(directory + file) == directory
  {
    var s := directory + file;
    assert s[|directory| - 1] == '/';
    assert forall k :: |directory| <= k < |s| ==> s[k] == file[k - |directory|];
    assert Last(s) == Last(file);
    assert s[..|directory|] == directory;
  }

  /** A relative path that does not start with `../` is appended as it is, even if it holds `../` later on. */
  lemma SameDirectory(requestPath: string, relativePagePath: string)
    requires !StartsWith(relativePagePath, "../")
    ensures AbsolutePath(requestPath, relativePagePath) == Success(BaseOf(requestPath) + relativePagePath)
  {
  }

  /** Climbing out of `prefix + segment + "/"` gives `prefix`. */
  lemma ParentDropsSegment(prefix: string, segment: string)
    requires IsDirectory(prefix) && '/' !in segment
    ensures ParentOf(prefix + segment + "/") == prefix
  {
    var t := (prefix + segment + "/")[..|prefix + segment + "/"| - 1];
    assert t == prefix + segment;
    var j := LastIndexOf(t, '/');
    assert forall k :: |prefix| <= k < |t| ==> t[k] == segment[k - |prefix|];
    if |prefix| > 0 {
      assert t[|prefix| - 1] == '/';
    }
    assert j == |prefix| - 1;
  }

  /** One climb removes exactly one `/`, and leaves a directory prefix. */
  lemma ParentShape(base: string)
    requires |base| > 0 && EndsWith(base, '/')
    ensures var p := ParentOf(base);
      |p| < |base| && p == base[..|p|] && IsDirectory(p) && Count(p, '/') + 1 == Count(base, '/')
  {
    var t := base[..|base| - 1];
    var p := ParentOf(base);
    CountPrefix(t, |p|, '/');
    assert p == t[..|p|];
  }

  /** Being a prefix is transitive. */
  lemma PrefixOfPrefix(a: string, b: string, c: string)
    requires |a| <= |b| <= |c| && a == b[..|a|] && b == c[..|b|]
    ensures a == c[..|a|]
  {
    assert c[..|b|][..|a|] == c[..|a|];
  }

  /** `n` copies of `../`. */
  function ParentSteps(n: nat): string {
    if n == 0 then [] else "../" + ParentSteps(n - 1)
  }

  /**
   * Each leading `../` drops exactly one segment of a directory base, so `n` of them fail
   * exactly when the base has fewer than `n` segments.
   */
  lemma {:induction false} ClimbStepsFail(base: string, n: nat, rest: string)
    requires IsDirectory(base) && !StartsWith(rest, "../")
    ensures Climb(base, ParentSteps(n) + rest).Failure? <==> n > Count(base, '/')
  {
    if n == 0 {
      assert ParentSteps(n) + rest == rest;
    } else {
      var tail := ParentSteps(n - 1) + rest;
      assert ParentSteps(n) + rest == "../" + tail;
      ClimbOnce(base, tail);
      if |base| == 0 {
        assert Count(base, '/') == 0;
      } else {
        ParentShape(base);
        ClimbStepsFail(ParentOf(base), n - 1, rest);
      }
    }
  }

  /** The directory `n` levels above `base` (climbing stops at the empty base). */
  function Ancestor(base: string, n: nat): string
    decreases n
  {
    if n == 0 || |base| == 0 then base else Ancestor(ParentOf(base), n - 1)
  }

  /**
   * When `n` leading `../` succeed, the result is the ancestor `n` levels up, a directory
   * prefix of the base with `n` fewer segments, followed by the rest of the relative path.
   */
  lemma {:induction false} ClimbStepsResult(base: string, n: nat, rest: string)
    requires IsDirectory(base) && !StartsWith(rest, "../")
    ensures var r := Climb(base, ParentSteps(n) + rest); var p := Ancestor(base, n);
      r.Success? ==> (r.value == p + rest && |p| <= |base| && p == base[..|p|] &&
        IsDirectory(p) && Count(p, '/') + n == Count(base, '/'))
  {
    if n == 0 {
      assert ParentSteps(n) + rest == rest;
      assert base == base[..|base|];
    } else {
      var tail := ParentSteps(n - 1) + rest;
      assert ParentSteps(n) + rest == "../" + tail;
      ClimbOnce(base, tail);
      if |base| > 0 {
        ParentShape(base);
        var p := ParentOf(base);
        ClimbStepsResult(p, n - 1, rest);
        var q := Ancestor(p, n - 1);
        assert Ancestor(base, n) == q;
        if Climb(p, tail).Success? {
          PrefixOfPrefix(q, p, base);
        }
      }
    }
  }

  /** One leading `../` climbs out of one segment, or throws on an empty base. */
  lemma ClimbOnce(base: string, tail: string)
    ensures Climb(base, "../" + tail) ==
      if |base| == 0 then Failure(StringIndexOutOfBounds) else Climb(ParentOf(base), tail)
  {
    assert ("../" + tail)[..3] == "../";
    assert ("../" + tail)[3..] == tail;
  }

  lemma ParentsExample()
    ensures ParentOf("http://x/a/b/") == "http://x/a/"
    ensures ParentOf("http://x/a/") == "http://x/"
  {
    ParentDropsSegment("http://x/a/", "b");
    assert "http://x/a/" + "b" + "/" == "http://x/a/b/";
    ParentDropsSegment("http://x/", "a");
    assert "http://x/" + "a" + "/" == "http://x/a/";
  }

  /** ("http://x/a/b/c", "../../d") resolves to "http://x/d". */
  lemma AbsolutePathExample()
    ensures AbsolutePath("http://x/a/b/c", "../../d") == Success("http://x/d")
  {
    assert "http://x/a/b/c" == "http://x/a/b/" + "c";
    BaseOfFile("http://x/a/b/", "c");
    ParentsExample();
    assert StartsWith("../../d", "../") && "../../d"[3..] == "../d";
    assert Climb("http://x/a/b/", "../../d") == Climb("http://x/a/", "../d");
    assert StartsWith("../d", "../") && "../d"[3..] == "d";
    assert Climb("http://x/a/", "../d") == Climb("http://x/", "d");
    assert !StartsWith("d", "../");
    assert "http://x/" + "d" == "http://x/d";
  }

  /**
   * `toAbsolutePath(requestPath, relativePagePath)`: takes the request's directory, then, while
   * the relative path starts with `../`, deletes that prefix and climbs one segment up.
   */
  method ToAbsolutePath(requestPath: string, relativePagePath: string) returns (r: Result<string, PathError>)
    ensures r == AbsolutePath(requestPath, relativePagePath)
  {
    var result: string;
    if EndsWith(requestPath, '/') {
      result := requestPath;
    } else {
      // everything after the last slash is removed, the slash itself kept
      result := requestPath[..LastIndexOf(requestPath, '/') + 1];
    }

    if StartsWith(relativePagePath, "../") {
      var tempRelative := relativePagePath;
      while StartsWith(tempRelative, "../")
        invariant Climb(result, tempRelative) == AbsolutePath(requestPath, relativePagePath)
        decreases |tempRelative|
      {
        tempRelative := tempRelative[3..];
        if |result| == 0 {
          // setLength(-1) throws
          return Failure(StringIndexOutOfBounds);
        }
        result := result[..|result| - 1];
        result := result[..LastIndexOf(result, '/') + 1];
      }
      result := result + tempRelative;
    } else {
      result := result + relativePagePath;
    }
    return Success(result);
  }
}
