/**
 * Worked query strings for the decoding of `RequestUtils`: each is split on `&`, then every
 * tuple on `=`, as `decodeParameters` and `decodeUrlParameters` do.
 */
module RequestUtilsExamples {
  import opened Wrappers
  import opened JavaStrings
  import opened RequestUtils

  lemma SplitQueryExample()
    ensures Split("a=1&b&c=2=3", '&') == ["a=1", "b", "c=2=3"]
  {
    assert Join(["a=1", "b", "c=2=3"], '&') == "a=1&b&c=2=3";
    SplitJoin(["a=1", "b", "c=2=3"], '&');
  }

  lemma SplitTupleExample()
    ensures Split("c=2=3", '=') == ["c", "2", "3"]
  {
    assert Join(["c", "2", "3"], '=') == "c=2=3";
    SplitJoin(["c", "2", "3"], '=');
  }

  lemma SplitFailingQueryExample()
    ensures Split("a=1&=", '&') == ["a=1", "="]
  {
    assert Join(["a=1", "="], '&') == "a=1&=";
    SplitJoin(["a=1", "="], '&');
  }

  lemma TupleEntryPairExample(decode: string -> string)
    ensures TupleEntry("a=1", decode) == Success((decode("a"), decode("1")))
  {
    TupleEntryKeyValue("a", "1", decode);
    assert "a" + "=" + "1" == "a=1";
  }

  lemma TupleEntryKeyExample(decode: string -> string)
    ensures TupleEntry("b", decode) == Success((decode("b"), []))
  {
    TupleEntryKeyOnly("b", decode);
  }

  lemma TupleEntryExtraPartsExample(decode: string -> string)
    ensures TupleEntry("c=2=3", decode) == Success((decode("c"), []))
  {
    SplitTupleExample();
  }

  lemma TupleEntryFailureExample(decode: string -> string)
    ensures TupleEntry("=", decode) == Failure(ArrayIndexOutOfBounds("="))
  {
    TupleEntryFails("=", decode);
  }

  lemma CollectOne<T>(a: T)
    ensures Collect([Success(a)]) == Success([a])
  {
    var r: seq<Result<T, DecodeError>> := [Success(a)];
    assert r[..0] == [];
    var none: seq<T> := [];
    assert none + [a] == [a];
  }

  lemma CollectThree<T>(a: T, b: T, c: T)
    ensures Collect([Success(a), Success(b), Success(c)]) == Success([a, b, c])
  {
    var r: seq<Result<T, DecodeError>> := [Success(a), Success(b), Success(c)];
    CollectOne(a);
    var r2 := r[..2];
    assert r2[..|r2| - 1] == [Success(a)];
    assert Last(r2) == Success(b) && [a] + [b] == [a, b];
    assert Collect(r2) == Success([a, b]);
    assert r[..|r| - 1] == r2;
    assert Last(r) == Success(c) && [a, b] + [c] == [a, b, c];
  }

  lemma CollectSecondFails<T>(a: T, e: DecodeError)
    ensures Collect([Success(a), Failure(e)]) == Failure(e)
  {
    var r: seq<Result<T, DecodeError>> := [Success(a), Failure(e)];
    CollectOne(a);
    assert r[..|r| - 1] == [Success(a)];
  }

  /** `a=1&b&c=2=3`: a pair, a bare key, and a tuple with too many `=` whose value is dropped. */
  lemma DecodeAllExample(decode: string -> string)
    ensures DecodeAll(Split("a=1&b&c=2=3", '&'), decode) ==
              Success([(decode("a"), decode("1")), (decode("b"), []), (decode("c"), [])])
  {
    SplitQueryExample();
    TupleEntryPairExample(decode);
    TupleEntryKeyExample(decode);
    TupleEntryExtraPartsExample(decode);
    var e0, e1, e2 := (decode("a"), decode("1")), (decode("b"), []), (decode("c"), []);
    assert TupleEntries(["a=1", "b", "c=2=3"], decode) == [Success(e0), Success(e1), Success(e2)];
    CollectThree(e0, e1, e2);
  }

  /** `a=1&=`: the second tuple is all `=`, so decoding throws on it. */
  lemma DecodeAllFailureExample(decode: string -> string)
    ensures DecodeAll(Split("a=1&=", '&'), decode) == Failure(ArrayIndexOutOfBounds("="))
  {
    SplitFailingQueryExample();
    TupleEntryPairExample(decode);
    TupleEntryFailureExample(decode);
    var e0 := (decode("a"), decode("1"));
    assert TupleEntries(["a=1", "="], decode) == [Success(e0), Failure(ArrayIndexOutOfBounds("="))];
    CollectSecondFails(e0, ArrayIndexOutOfBounds("="));
  }
}
