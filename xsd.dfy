/**
 * The string-like XML Schema datatypes of the package and their text
 * encoders. Only AnyURI and String define `MarshalText`; the other string
 * types are plain declarations over a string and carry no behaviour.
 */
module Xsd {
  import opened Wrappers
  import opened WhiteSpace

  /** The bytes of a string, `[]byte(s)`, taken as its characters one for one. */
  type Bytes = seq<char>

  /** Go's `error` interface; a `None` error stands for nil. */
  datatype Error = Error(message: string)

  /** anyURI: a URI reference, whose whiteSpace facet is collapse. */
  datatype AnyURI = AnyURI(value: string)
  {
    /** The collapsed text of the URI, and no error. */
    function MarshalText(): (r: (Bytes, Option<Error>))
      ensures r.0 == WhiteSpaceCollapse(value)
      ensures r.1 == None
      ensures NoneReplaced(r.0)
      ensures r.0 != [] ==> r.0[0] != ' ' && r.0[|r.0| - 1] != ' '
    {
      var s := WhiteSpaceCollapse(value);
      (s, None)
    }
  }

  /** string: any character string, whose whiteSpace facet is preserve. */
  datatype String = String(value: string)
  {
    /** The characters of the string as they are, and no error. */
    function MarshalText(): (r: (Bytes, Option<Error>))
      ensures r.0 == WhiteSpacePreserve(value)
      ensures r.1 == None
      ensures String(r.0) == this
    {
      var s := value;
      (s, None)
    }
  }

  /**
   * normalizedString, declared on String. A declared type does not inherit
   * String's `MarshalText`, so this is only a string: no replace is applied.
   */
  type NormalizedString = string

  /** token, declared on NormalizedString; no collapse is applied. */
  type Token = NormalizedString

  /** Name, declared on Token; its name-character pattern is not checked. */
  type Name = Token

  /** NCName, declared on Name; its no-colon pattern is not checked. */
  type NCName = Name

  /** ID, declared on NCName. */
  type ID = NCName

  /** `AnyURI(" 123 ")` marshals to `123`. */
  lemma AnyURIMarshalExample(o: AnyURI)
    requires o == AnyURI(" 123 ")
    ensures o.MarshalText() == ("123", None)
  {
    var t := WhiteSpaceReplace(o.value);
    assert t == " 123 " by {
      assert forall i :: 0 <= i < |t| ==> t[i] == " 123 "[i];
    }
    assert " 123 " == Strings.Repeat(' ', 1) + "123" + Strings.Repeat(' ', 1);
    CollapseUnique(o.value, 1, "123", 1);
  }

  /** Marshalling the marshalled text of an AnyURI again gives the same text. */
  lemma AnyURIMarshalIdempotent(o: AnyURI)
    ensures AnyURI(o.MarshalText().0).MarshalText() == o.MarshalText()
  {
    CollapseIdempotent(o.value);
  }

  /** An AnyURI marshals to its own value exactly when that value is already collapsed. */
  lemma AnyURIMarshalUnchanged(o: AnyURI)
    ensures o.MarshalText().0 == o.value <==>
      NoneReplaced(o.value) && (o.value != [] ==> o.value[0] != ' ' && o.value[|o.value| - 1] != ' ')
  {
    CollapseFixedPoint(o.value);
  }
}
