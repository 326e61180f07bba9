/** The `Contains` extension on a collection of strings, with its argument checks. */
module ExtensionMethods {
  import opened Wrappers
  import Ascii

  /** The two ordinal members of `System.StringComparison`. */
  datatype StringComparison = Ordinal | OrdinalIgnoreCase

  /** ArgumentNullException and ArgumentException, each naming the offending parameter. */
  datatype ArgumentFault = ArgumentNull(paramName: string) | ArgumentNullOrEmpty(paramName: string)

  /** `string.Equals(a, b, comparison)` for two non-null strings. */
  predicate StringEquals(a: string, b: string, comparison: StringComparison) {
    match comparison
    case Ordinal => a == b
    case OrdinalIgnoreCase => Ascii.EqualsIgnoreCase(a, b)
  }

  /**
   * The position, at or after `from`, where the `foreach` loop returns: the
   * first element equal to `item`, or None when the loop runs to the end.
   */
  function FirstMatch(elements: seq<string>, item: string, comparison: StringComparison, from: nat): (k: Option<nat>)
    requires from <= |elements|
    ensures k.Some? ==> from <= k.value < |elements| && StringEquals(elements[k.value], item, comparison)
    ensures k.Some? ==> forall j :: from <= j < k.value ==> !StringEquals(elements[j], item, comparison)
    ensures k.None? <==> forall j :: from <= j < |elements| ==> !StringEquals(elements[j], item, comparison)
    decreases |elements| - from
  {
    if from == |elements| then None
    else if StringEquals(elements[from], item, comparison) then Some(from)
    else FirstMatch(elements, item, comparison, from + 1)
  }

  /**
   * `collection.Contains(item, comparison)`: a null collection, then a null
   * or empty item, are rejected before any element is looked at; otherwise
   * the answer is whether some element equals the item.
   */
  function Contains(collection: Option<seq<string>>, item: Option<string>,
                    comparison: StringComparison := OrdinalIgnoreCase): (r: Result<bool, ArgumentFault>)
    ensures collection.None? <==> r == Failure(ArgumentNull("collection"))
    ensures collection.Some? && (item.None? || item.value == "") ==> r == Failure(ArgumentNullOrEmpty("item"))
    ensures collection.Some? && item.Some? && item.value != "" ==>
      r.Success? && (r.value <==> exists e :: e in collection.value && StringEquals(e, item.value, comparison))
  {
    if collection.None? then Failure(ArgumentNull("collection"))
    else if item.None? || item.value == "" then Failure(ArgumentNullOrEmpty("item"))
    else Success(FirstMatch(collection.value, item.value, comparison, 0).Some?)
  }

  /** An empty collection contains no valid item. */
  lemma ContainsOfEmptyCollection(item: string, comparison: StringComparison)
    requires item != ""
    ensures Contains(Some([]), Some(item), comparison) == Success(false)
  {
  }

  /** The answer depends only on which strings occur, not on their order or repetitions. */
  lemma ContainsIgnoresOrderAndDuplicates(a: seq<string>, b: seq<string>, item: Option<string>, comparison: StringComparison)
    requires forall x :: x in a <==> x in b
    ensures Contains(Some(a), item, comparison) == Contains(Some(b), item, comparison)
  {
  }

  /** Under the default comparison an item that differs from an element only in letter case is found. */
  lemma ContainsFindsCaseVariant(collection: seq<string>, element: string, item: string)
    requires element in collection && item != ""
    requires Ascii.DifferOnlyInCase(element, item)
    ensures Contains(Some(collection), Some(item)) == Success(true)
  {
    Ascii.EqualsIgnoreCaseIffDifferOnlyInCase(element, item);
  }

  /** Under the ordinal comparison letter case matters. */
  lemma OrdinalComparisonIsCaseSensitive()
    ensures Contains(Some(["ABC"]), Some("abc"), Ordinal) == Success(false)
    ensures Contains(Some(["ABC"]), Some("abc"), OrdinalIgnoreCase) == Success(true)
  {
    assert !StringEquals("ABC", "abc", Ordinal);
    assert StringEquals("ABC", "abc", OrdinalIgnoreCase);
  }
}
