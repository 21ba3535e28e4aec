/** The ordered store under the accessors: indexed read, fluent append and the
    factories that build a JSONArray from explicit elements. */
module ValueStore {
  import opened Outcomes
  import opened Elements

  /** ArrayList.get: the stored element, or IndexOutOfBoundsException. */
  function At(a: JsonArray, i: int): Result<Element, Error>
  {
    if 0 <= i < |a| then Success(a[i]) else Failure(IndexOutOfBounds(i, |a|))
  }

  /** Every successful read is a stored element, every stored element is read
      at some index, and exactly the indices outside the list fail. */
  lemma ReadsCoverContents(a: JsonArray)
    ensures forall i :: At(a, i).Success? ==> At(a, i).value in a
    ensures forall i :: At(a, i).Failure? <==> !(0 <= i < |a|)
    ensures forall e :: e in a ==> exists i :: 0 <= i < |a| && At(a, i) == Success(e)
  {
    forall e | e in a
      ensures exists i :: 0 <= i < |a| && At(a, i) == Success(e)
    {
      var i :| 0 <= i < |a| && a[i] == e;
      assert At(a, i) == Success(e);
    }
  }

  /** fluentAdd: the receiver with the element appended; the method returns the
      receiver itself, so the result is the updated list. */
  function FluentAdd(a: JsonArray, e: Element): (r: JsonArray)
    ensures |r| == |a| + 1
    ensures r[..|a|] == a
    ensures r[|a|] == e
  {
    a + [e]
  }

  /** The JSONArray(Object...) constructor, which of(Object...) calls: an empty
      list to which each argument is added in turn. It also stands for the
      JSONArray(Collection) constructor, which getJSONArray uses to copy a
      Collection and which gives the same list of the collection's elements
      in iteration order. */
  function FromItems(items: seq<Element>): (r: JsonArray)
    ensures r == items
  {
    if |items| == 0 then []
    else
      var r := FluentAdd(FromItems(items[..|items| - 1]), items[|items| - 1]);
      assert r[..|items| - 1] == items[..|items| - 1];
      r
  }

  /** of(item) */
  function Of1(item: Element): (r: JsonArray)
    ensures r == [item]
  {
    FluentAdd([], item)
  }

  /** of(first, second) */
  function Of2(first: Element, second: Element): (r: JsonArray)
    ensures r == [first, second]
  {
    FluentAdd(FluentAdd([], first), second)
  }

  /** of(first, second, third) */
  function Of3(first: Element, second: Element, third: Element): (r: JsonArray)
    ensures r == [first, second, third]
  {
    FluentAdd(FluentAdd(FluentAdd([], first), second), third)
  }

  /** The fixed-arity factories agree with the variadic constructor. */
  lemma OverloadsAgree(x: Element, y: Element, z: Element)
    ensures Of1(x) == FromItems([x])
    ensures Of2(x, y) == FromItems([x, y])
    ensures Of3(x, y, z) == FromItems([x, y, z])
  {
  }

  /** Appending leaves every earlier index reading what it read before and
      makes the new last index read the appended element. */
  lemma FluentAddKeepsEarlierReads(a: JsonArray, e: Element, i: int)
    ensures 0 <= i < |a| ==> At(FluentAdd(a, e), i) == At(a, i)
    ensures At(FluentAdd(a, e), |a|) == Success(e)
    ensures i < 0 || i > |a| ==> At(FluentAdd(a, e), i).Failure?
  {
    if 0 <= i < |a| {
      assert FluentAdd(a, e)[..|a|][i] == a[i];
    }
  }
}
