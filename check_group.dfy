/**
 * The selection logic of wicket's `CheckGroup` form component: resolving the submitted check
 * values to the model objects of the group's `Check` children, writing the selection into the
 * model's collection in place, and the group's tag and statelessness rules.
 */
module CheckGroup {
  import opened Wrappers

  /**
   * A `Check` child, as the group's visit sees it: `String.valueOf(check.getValue())` and the
   * check's model object. The group's children are a sequence of these in visit order.
   */
  datatype CheckChild<T> = CheckChild(value: string, modelObject: T)

  /** The runtime exception for a submitted value that points to no `Check`. */
  datatype IllegalCheckValueException = IllegalCheckValue(submitted: seq<Option<string>>, value: string)

  /** The visit that stops at the first check whose value equals `value`: its position, if any. */
  function FindCheck<T>(checks: seq<CheckChild<T>>, value: string): (r: Option<nat>)
    ensures r.Some? ==> r.value < |checks| && checks[r.value].value == value
    ensures r.Some? ==> forall j :: 0 <= j < r.value ==> checks[j].value != value
    ensures r.None? <==> forall j :: 0 <= j < |checks| ==> checks[j].value != value
  {
    if |checks| == 0 then None
    else if checks[0].value == value then Some(0)
    else match FindCheck(checks[1..], value)
      case None => None
      case Some(i) => Some(i + 1)
  }

  /** The non-null entries of `values`, in order. */
  function NonNull(values: seq<Option<string>>): (r: seq<string>)
    ensures |r| <= |values|
  {
    if |values| == 0 then []
    else
      var init := NonNull(values[..|values| - 1]);
      match values[|values| - 1]
      case None => init
      case Some(v) => init + [v]
  }

  /** The values `convertValue` resolves: none for a null or empty array, else the non-null ones. */
  function Submitted(values: Option<seq<Option<string>>>): seq<string> {
    if values.None? then [] else NonNull(values.value)
  }

  /**
   * The non-null entries are exactly the values the array holds, and an array without nulls
   * gives all of its values, position by position.
   */
  lemma {:induction false} NonNullMembers(values: seq<Option<string>>)
    ensures forall x :: x in NonNull(values) <==> Some(x) in values
    ensures (forall i :: 0 <= i < |values| ==> values[i].Some?) ==>
      |NonNull(values)| == |values| && forall i :: 0 <= i < |values| ==> values[i] == Some(NonNull(values)[i])
  {
    if |values| > 0 {
      var init := values[..|values| - 1];
      NonNullMembers(init);
      assert values == init + [values[|values| - 1]];
    }
  }

  lemma {:induction false} NonNullConcat(a: seq<Option<string>>, b: seq<Option<string>>)
    ensures NonNull(a + b) == NonNull(a) + NonNull(b)
  {
    if |b| > 0 {
      var b' := b[..|b| - 1];
      assert (a + b)[..|a + b| - 1] == a + b';
      NonNullConcat(a, b');
    } else {
      assert a + b == a;
    }
  }

  /** Entry `t` contributes itself when it is not null. */
  lemma NonNullStep(values: seq<Option<string>>, t: nat)
    requires t < |values|
    ensures NonNull(values[..t + 1]) ==
              NonNull(values[..t]) + (if values[t].Some? then [values[t].value] else [])
  {
    assert values[..t + 1][..t] == values[..t];
  }

  /** Resolves each value to the model object of its first matching check, or gives the first value without one. */
  function Resolve<T>(checks: seq<CheckChild<T>>, submitted: seq<string>): (r: Result<seq<T>, string>)
    ensures r.Failure? ==> |submitted| > 0
  {
    if |submitted| == 0 then Success([])
    else
      match Resolve(checks, submitted[..|submitted| - 1])
      case Failure(v) => Failure(v)
      case Success(objects) =>
        var value := submitted[|submitted| - 1];
        match FindCheck(checks, value)
        case None => Failure(value)
        case Some(i) => Success(objects + [checks[i].modelObject])
  }

  /** What `convertValue` returns for `values`, or the exception it throws. */
  function Converted<T>(values: Option<seq<Option<string>>>, checks: seq<CheckChild<T>>): Result<seq<T>, IllegalCheckValueException> {
    match Resolve(checks, Submitted(values))
    case Success(objects) => Success(objects)
    case Failure(value) => Failure(IllegalCheckValue(values.value, value))
  }

  /** Resolving one more value: the failure stays, or the value's object is appended, or it is the failure. */
  lemma ResolveSnoc<T>(checks: seq<CheckChild<T>>, submitted: seq<string>, value: string)
    ensures Resolve(checks, submitted + [value]) ==
      match Resolve(checks, submitted)
      case Failure(v) => Failure(v)
      case Success(objects) =>
        match FindCheck(checks, value)
        case None => Failure(value)
        case Some(i) => Success(objects + [checks[i].modelObject])
  {
    assert (submitted + [value])[..|submitted|] == submitted;
  }

  /** The object resolved for a value that matches: the model object of its first matching check. */
  ghost predicate ResolvedAs<T>(checks: seq<CheckChild<T>>, value: string, modelObject: T) {
    FindCheck(checks, value).Some? && modelObject == checks[FindCheck(checks, value).value].modelObject
  }

  /**
   * Resolution succeeds exactly when every value matches a check, and then gives one model
   * object per value, in order, each from the first matching check.
   */
  lemma {:induction false} ResolveSuccess<T>(checks: seq<CheckChild<T>>, submitted: seq<string>)
    ensures var r := Resolve(checks, submitted);
      && (r.Success? <==> forall i :: 0 <= i < |submitted| ==> FindCheck(checks, submitted[i]).Some?)
      && (r.Success? ==> (|r.value| == |submitted| &&
            forall i :: 0 <= i < |submitted| ==> ResolvedAs(checks, submitted[i], r.value[i])))
  {
    if |submitted| > 0 {
      var init, value := submitted[..|submitted| - 1], submitted[|submitted| - 1];
      assert submitted == init + [value];
      ResolveSuccess(checks, init);
      ResolveSnoc(checks, init, value);
    }
  }

  /** When resolution fails, it names the first value that matches no check. */
  lemma {:induction false} ResolveFailure<T>(checks: seq<CheckChild<T>>, submitted: seq<string>)
    ensures var r := Resolve(checks, submitted);
      r.Failure? ==> exists i :: (
        && 0 <= i < |submitted| && submitted[i] == r.error && FindCheck(checks, submitted[i]).None?
        && forall j :: 0 <= j < i ==> FindCheck(checks, submitted[j]).Some?)
  {
    if |submitted| > 0 {
      var init, value := submitted[..|submitted| - 1], submitted[|submitted| - 1];
      assert submitted == init + [value];
      ResolveFailure(checks, init);
      ResolveSnoc(checks, init, value);
      match Resolve(checks, init)
      case Failure(v) =>
        var i :| 0 <= i < |init| && init[i] == v && FindCheck(checks, init[i]).None? &&
                 forall j :: 0 <= j < i ==> FindCheck(checks, init[j]).Some?;
        assert submitted[i] == init[i];
      case Success(objects) =>
        ResolveSuccess(checks, init);
        assert forall j :: 0 <= j < |init| ==> submitted[j] == init[j];
    }
  }

  /** Once a prefix holds an unmatched value, the whole resolution fails on it. */
  lemma {:induction false} ResolvePrefixFailure<T>(checks: seq<CheckChild<T>>, a: seq<string>, b: seq<string>)
    requires Resolve(checks, a).Failure?
    ensures Resolve(checks, a + b) == Resolve(checks, a)
  {
    if |b| > 0 {
      var b' := b[..|b| - 1];
      assert (a + b)[..|a + b| - 1] == a + b';
      ResolvePrefixFailure(checks, a, b');
    } else {
      assert a + b == a;
    }
  }

  /**
   * `convertValue`'s outcome, in the source's terms: one model object per non-null submitted
   * value, in submission order and duplicates included, each from the first check in visit
   * order with that value (none for a null or empty array); or, when a value matches no check,
   * the exception naming all submitted values and the first unmatched one, and no partial result.
   */
  lemma ConvertedSpec<T>(values: Option<seq<Option<string>>>, checks: seq<CheckChild<T>>)
    ensures var r := Converted(values, checks); var s := Submitted(values);
      && (values.None? || values.value == [] ==> r == Success([]))
      && (r.Success? <==> forall i :: 0 <= i < |s| ==> FindCheck(checks, s[i]).Some?)
      && (r.Success? ==> (
           && |r.value| == |s|
           && forall i :: 0 <= i < |s| ==> ResolvedAs(checks, s[i], r.value[i])))
      && (r.Failure? ==> (
           && values.Some? && r.error.submitted == values.value
           && exists i :: (
                && 0 <= i < |s| && s[i] == r.error.value && FindCheck(checks, s[i]).None?
                && forall j :: 0 <= j < i ==> FindCheck(checks, s[j]).Some?)))
  {
    ResolveSuccess(checks, Submitted(values));
    ResolveFailure(checks, Submitted(values));
  }

  /**
   * `convertValue`: walks the submitted values, skipping nulls, appending the model object of
   * the first matching check and throwing at the first value that has none.
   */
  method ConvertValue<T>(values: Option<seq<Option<string>>>, checks: seq<CheckChild<T>>)
    returns (r: Result<seq<T>, IllegalCheckValueException>)
    ensures r == Converted(values, checks)
  {
    var collection: seq<T> := [];
    if values.Some? && |values.value| > 0 {
      var vs := values.value;
      for t := 0 to |vs|
        invariant Resolve(checks, NonNull(vs[..t])) == Success(collection)
      {
        NonNullStep(vs, t);
        if vs[t].Some? {
          var value := vs[t].value;
          var found := FindCheck(checks, value);
          ResolveSnoc(checks, NonNull(vs[..t]), value);
          if found.None? {
            NonNullConcat(vs[..t + 1], vs[t + 1..]);
            assert vs[..t + 1] + vs[t + 1..] == vs;
            ResolvePrefixFailure(checks, NonNull(vs[..t + 1]), NonNull(vs[t + 1..]));
            return Failure(IllegalCheckValue(vs, value));
          }
          collection := collection + [checks[found.value].modelObject];
        } else {
          assert NonNull(vs[..t]) + [] == NonNull(vs[..t]);
        }
      }
      assert vs[..|vs|] == vs;
    }
    return Success(collection);
  }

  /** The exceptions `updateModel` can pass on to its caller. */
  datatype ModelException =
    | NoSetter              // `setDefaultModelObject` on a property without a setter
    | UnsupportedOperation  // `clear()` on a collection that cannot be modified

  /**
   * A `java.util.Collection` held by reference, so that two holders may share it. An
   * unmodifiable one throws `UnsupportedOperationException` from its mutators.
   */
  class ModelCollection<T> {
    var elements: seq<T>
    const modifiable: bool

    constructor (elements: seq<T>, modifiable: bool)
      ensures this.elements == elements && this.modifiable == modifiable
    {
      this.elements := elements;
      this.modifiable := modifiable;
    }

    /** `clear()`: empties the collection, or throws and keeps it when it cannot be modified. */
    method Clear() returns (thrown: bool)
      modifies this
      ensures thrown == !modifiable
      ensures elements == if modifiable then [] else old(elements)
    {
      if !modifiable {
        return true;
      }
      elements := [];
      return false;
    }

    /**
     * `addAll(other)`: appends what `other` held on entry (`other` may be this very collection),
     * or throws and keeps the collection when it cannot be modified.
     */
    method AddAll(other: ModelCollection<T>) returns (thrown: bool)
      modifies this
      ensures thrown == !modifiable
      ensures elements == if modifiable then old(elements) + old(other.elements) else old(elements)
    {
      if !modifiable {
        return true;
      }
      elements := elements + other.elements;
      return false;
    }
  }

  /**
   * The group's model: a reference to a collection, and whether the bound property can be
   * written (`setObject` throws when it has no setter).
   */
  class CollectionModel<T> {
    var modelObject: ModelCollection?<T>
    const hasSetter: bool
    /** The argument of every `setObject` call so far, in order, whether or not it threw. */
    ghost var setObjectArguments: seq<ModelCollection?<T>>

    constructor (modelObject: ModelCollection?<T>, hasSetter: bool)
      ensures this.modelObject == modelObject && this.hasSetter == hasSetter
      ensures setObjectArguments == []
    {
      this.modelObject := modelObject;
      this.hasSetter := hasSetter;
      setObjectArguments := [];
    }

    /** `setObject`: stores the reference, or reports the exception when there is no setter. */
    method SetObject(c: ModelCollection?<T>) returns (thrown: bool)
      modifies this
      ensures thrown == !hasSetter
      ensures modelObject == if hasSetter then c else old(modelObject)
      ensures setObjectArguments == old(setObjectArguments) + [c]
    {
      setObjectArguments := setObjectArguments + [c];
      if !hasSetter {
        return true;
      }
      modelObject := c;
      return false;
    }
  }

  /** A markup tag's attributes. */
  class ComponentTag {
    var attributes: map<string, string>

    constructor (attributes: map<string, string>)
      ensures this.attributes == attributes
    {
      this.attributes := attributes;
    }

    /** `remove(name)` */
    method Remove(name: string)
      modifies this
      ensures attributes == old(attributes) - {name}
    {
      attributes := attributes - {name};
    }
  }

  /** The group: its model, the converted input of the last submission, and its two stateless inputs. */
  class CheckGroup<T> {
    const model: CollectionModel<T>
    var convertedInput: ModelCollection<T>
    const wantOnSelectionChangedNotifications: bool
    /** The statelessness hint of the form component the group extends. */
    const superStatelessHint: bool

    constructor (model: CollectionModel<T>, convertedInput: ModelCollection<T>,
                 wantOnSelectionChangedNotifications: bool, superStatelessHint: bool)
      ensures this.model == model && this.convertedInput == convertedInput
      ensures this.wantOnSelectionChangedNotifications == wantOnSelectionChangedNotifications
      ensures this.superStatelessHint == superStatelessHint
    {
      this.model := model;
      this.convertedInput := convertedInput;
      this.wantOnSelectionChangedNotifications := wantOnSelectionChangedNotifications;
      this.superStatelessHint := superStatelessHint;
    }

    /**
     * `updateModel`. Without a model collection the converted input becomes the model object,
     * and a failing `setObject` propagates. With one, that same collection is cleared and
     * refilled with the converted input (so it ends up empty when it IS the converted input),
     * then handed to `setObject` as the same instance, so that the model is told of the change;
     * a `setObject` exception is swallowed. An unmodifiable collection throws from `clear()`
     * before anything changes, and that exception propagates.
     */
    method UpdateModel() returns (r: Option<ModelException>)
      modifies model, model.modelObject
      ensures old(model.modelObject) == null ==> (
        && r == (if model.hasSetter then None else Some(NoSetter))
        && model.modelObject == (if model.hasSetter then convertedInput else null)
        && convertedInput.elements == old(convertedInput.elements))
      ensures old(model.modelObject) != null && !old(model.modelObject).modifiable ==> (
        && r == Some(UnsupportedOperation)
        && model.modelObject == old(model.modelObject)
        && model.modelObject.elements == old(model.modelObject.elements)
        && convertedInput.elements == old(convertedInput.elements))
      ensures old(model.modelObject) != null && old(model.modelObject).modifiable ==> (
        && r == None
        && model.modelObject == old(model.modelObject)
        && model.modelObject.elements ==
             (if old(model.modelObject) == convertedInput then [] else old(convertedInput.elements)))
      ensures old(model.modelObject) != null && old(model.modelObject) != convertedInput ==>
        convertedInput.elements == old(convertedInput.elements)
      ensures model.setObjectArguments == old(model.setObjectArguments) +
        if old(model.modelObject) == null then [convertedInput]
        else if old(model.modelObject).modifiable then [old(model.modelObject)]
        else []
    {
      var collection := model.modelObject;
      if collection == null {
        collection := convertedInput;
        var thrown := model.SetObject(collection);
        r := if thrown then Some(NoSetter) else None;
      } else {
        var thrown := collection.Clear();
        if thrown {
          return Some(UnsupportedOperation);
        }
        thrown := collection.AddAll(convertedInput);
        if thrown {
          return Some(UnsupportedOperation);
        }
        var ignored := model.SetObject(collection);
        r := None;
      }
    }

    /** `getStatelessHint`: a group that wants selection notifications is never stateless. */
    function GetStatelessHint(): (hint: bool)
      ensures wantOnSelectionChangedNotifications ==> !hint
      ensures !wantOnSelectionChangedNotifications ==> hint == superStatelessHint
    {
      if wantOnSelectionChangedNotifications then false else superStatelessHint
    }

    /** `onComponentTag`: drops `disabled` and `name`, keeping every other attribute as it was. */
    method OnComponentTag(tag: ComponentTag)
      modifies tag
      ensures tag.attributes == old(tag.attributes) - {"disabled", "name"}
      ensures "disabled" !in tag.attributes && "name" !in tag.attributes
    {
      tag.Remove("disabled");
      tag.Remove("name");
    }
  }
}
