/** `FieldMarshal.PartitionWithVerify` and its result container (Utils/FieldMarshal.cs): sorting the
    fields present in an input into the mandatory ones found, the optional ones found, the mandatory
    ones missing and the unexpected ones. */
module FieldMarshal {
  import opened Errors

  /** `DiscriminatedFieldContainer<A>`: four hash sets. */
  datatype DiscriminatedFieldContainer<A> = DiscriminatedFieldContainer(
    majorFieldsPresent: set<A>,
    minorFieldsPresent: set<A>,
    awolFields: set<A>,
    unexpectedFields: set<A>)
  {
    /** True when no mandatory field is missing. */
    predicate AreAllMandatoryFieldsPresent() { |awolFields| == 0 }
  }

  /** The distinct elements of a sequence, which is what Intersect, Except and Union work on. */
  function Elements<A>(s: seq<A>): set<A> { set x | x in s }

  /** PartitionWithVerify: a field listed as both mandatory and optional throws ArgumentException.
      Otherwise the mandatory fields in the input, the optional fields in the input, the mandatory
      fields not in the input, and the input fields that are neither mandatory nor optional. */
  function PartitionWithVerify<A(!new)>(input: seq<A>, majorFields: seq<A>, minorFields: seq<A>)
    : (r: Outcome<DiscriminatedFieldContainer<A>>)
    ensures r.Throws? <==> exists x :: x in majorFields && x in minorFields
    ensures r.Throws? ==> r.error == Argument
    ensures r.Returns? ==> forall x :: x in r.value.majorFieldsPresent <==> x in input && x in majorFields
    ensures r.Returns? ==> forall x :: x in r.value.minorFieldsPresent <==> x in input && x in minorFields
    ensures r.Returns? ==> forall x :: x in r.value.awolFields <==> x in majorFields && x !in input
    ensures r.Returns? ==> forall x :: x in r.value.unexpectedFields <==> x in input && x !in majorFields && x !in minorFields
  {
    var input', major, minor := Elements(input), Elements(majorFields), Elements(minorFields);
    if major * minor != {} then
      var x :| x in major * minor;
      assert x in majorFields && x in minorFields;
      Throws(Argument)
    else
      assert forall x :: x in majorFields && x in minorFields ==> x in major * minor;
      Returns(DiscriminatedFieldContainer(input' * major, input' * minor, major - input', input' - (major + minor)))
  }

  /** The present and the missing mandatory fields split the mandatory set: together they are all of
      it, and no field is both. */
  lemma MandatoryFieldsSplit<A(!new)>(input: seq<A>, majorFields: seq<A>, minorFields: seq<A>)
    requires PartitionWithVerify(input, majorFields, minorFields).Returns?
    ensures var c := PartitionWithVerify(input, majorFields, minorFields).value;
      c.majorFieldsPresent + c.awolFields == Elements(majorFields) && c.majorFieldsPresent * c.awolFields == {}
  {
  }

  /** The mandatory, the optional and the unexpected fields present split the input: together they are
      every input field, and no field is in two of them. */
  lemma InputFieldsSplit<A(!new)>(input: seq<A>, majorFields: seq<A>, minorFields: seq<A>)
    requires PartitionWithVerify(input, majorFields, minorFields).Returns?
    ensures var c := PartitionWithVerify(input, majorFields, minorFields).value;
      c.majorFieldsPresent + c.minorFieldsPresent + c.unexpectedFields == Elements(input) &&
      c.majorFieldsPresent * c.minorFieldsPresent == {} &&
      c.majorFieldsPresent * c.unexpectedFields == {} &&
      c.minorFieldsPresent * c.unexpectedFields == {}
  {
  }

  /** AreAllMandatoryFieldsPresent holds exactly when every mandatory field occurs in the input. */
  lemma AllMandatoryPresent<A(!new)>(input: seq<A>, majorFields: seq<A>, minorFields: seq<A>)
    requires PartitionWithVerify(input, majorFields, minorFields).Returns?
    ensures PartitionWithVerify(input, majorFields, minorFields).value.AreAllMandatoryFieldsPresent()
        <==> forall x :: x in majorFields ==> x in input
  {
    var c := PartitionWithVerify(input, majorFields, minorFields).value;
    if !forall x :: x in majorFields ==> x in input {
      var x :| x in majorFields && x !in input;
      assert x in c.awolFields;
    }
  }

  /** Input ["field1", "field2", "field3"] with "field1" and "field4" mandatory and "field2" and
      "field5" optional: "field4" is missing and "field3" is unexpected. */
  lemma MissingAndUnexpectedFields()
    ensures var r := PartitionWithVerify(["field1", "field2", "field3"], ["field1", "field4"], ["field2", "field5"]);
      r.Returns? && r.value.majorFieldsPresent == {"field1"} && r.value.minorFieldsPresent == {"field2"} &&
      r.value.awolFields == {"field4"} && r.value.unexpectedFields == {"field3"} &&
      !r.value.AreAllMandatoryFieldsPresent()
  {
    var r := PartitionWithVerify(["field1", "field2", "field3"], ["field1", "field4"], ["field2", "field5"]);
    assert Elements(["field1", "field4"]) * Elements(["field2", "field5"]) == {};
    assert r.value.majorFieldsPresent == {"field1"};
    assert r.value.awolFields == {"field4"};
    assert r.value.unexpectedFields == {"field3"};
  }
}
