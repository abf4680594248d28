/** Preference values kept in tag objects: AuthServer/PrefsSourceLib/XMLPrefsParser.cpp over the XMLTag class. */
module XmlPrefs {
  import opened Common

  const PREF: Text := "PREF"
  const LIST_PREF: Text := "LIST-PREF"
  const VALUE: Text := "VALUE"
  const OBJECT: Text := "OBJECT"
  const EMPTY_OBJECT: Text := "EMPTY-OBJECT"
  const OBJECT_LIST: Text := "LIST-OBJECT"
  const NAME_ATTR: Text := "NAME"
  const TYPE_ATTR: Text := "TYPE"

  /** The first attribute with a name has the value, or there is none. */
  ghost predicate FirstAttribute(attributes: seq<(Text, Text)>, name: Text, value: Option<Text>) {
    match value
    case None => forall i :: 0 <= i < |attributes| ==> attributes[i].0 != name
    case Some(text) =>
      exists i :: 0 <= i < |attributes| && attributes[i] == (name, text) && forall j :: 0 <= j < i ==> attributes[j].0 != name
  }

  class XMLTag {
    var fTag: Text
    var fValue: Option<Text>
    var fEmbeddedTags: seq<XMLTag>
    var fAttributes: seq<(Text, Text)>

    constructor (tagName: Text)
      ensures fTag == tagName && fValue == None && fEmbeddedTags == [] && fAttributes == []
    {
      fTag, fValue, fEmbeddedTags, fAttributes := tagName, None, [], [];
    }

    method GetAttributeValue(attrName: Text) returns (value: Option<Text>)
      ensures FirstAttribute(fAttributes, attrName, value)
    {
      var i := 0;
      while i < |fAttributes|
        invariant i <= |fAttributes| && forall j :: 0 <= j < i ==> fAttributes[j].0 != attrName
      {
        if fAttributes[i].0 == attrName {
          return Some(fAttributes[i].1);
        }
        i := i + 1;
      }
      return None;
    }

    /** A tag that has embedded tags keeps having no value of its own. */
    method SetValue(value: Option<Text>)
      modifies this`fValue
      ensures fValue == if fEmbeddedTags == [] then value else old(fValue)
    {
      if |fEmbeddedTags| > 0 {
        return;
      }
      fValue := value;
    }

    method AddEmbeddedTag(tag: XMLTag)
      modifies this`fEmbeddedTags
      ensures fEmbeddedTags == old(fEmbeddedTags) + [tag]
    {
      fEmbeddedTags := fEmbeddedTags + [tag];
    }

    method GetEmbeddedTag(index: nat) returns (tag: XMLTag?)
      ensures tag == if index < |fEmbeddedTags| then fEmbeddedTags[index] else null
    {
      tag := if |fEmbeddedTags| <= index then null else fEmbeddedTags[index];
    }

    /** Unlinks an embedded tag, as RemoveEmbeddedTag and the tag's own destructor do. */
    method RemoveEmbeddedTag(tag: XMLTag)
      requires Distinct(fEmbeddedTags)
      modifies this`fEmbeddedTags
      ensures tag !in old(fEmbeddedTags) ==> fEmbeddedTags == old(fEmbeddedTags)
      ensures forall i :: 0 <= i < |old(fEmbeddedTags)| && old(fEmbeddedTags)[i] == tag ==>
                            fEmbeddedTags == Without(old(fEmbeddedTags), i)
      ensures Distinct(fEmbeddedTags)
    {
      var i := 0;
      while i < |fEmbeddedTags| && fEmbeddedTags[i] != tag
        invariant i <= |fEmbeddedTags| && tag !in fEmbeddedTags[..i]
      {
        i := i + 1;
      }
      if i < |fEmbeddedTags| {
        WithoutDistinct(fEmbeddedTags, i);
        fEmbeddedTags := Without(fEmbeddedTags, i);
      }
    }

    /** A VALUE tag of a list. */
    ghost predicate IsValue()
      reads this
    {
      fTag == VALUE && fEmbeddedTags == [] && fValue.Some?
    }

    /** A PREF with at most one value, or a LIST-PREF whose embedded tags are VALUEs. */
    ghost predicate IsPref()
      reads this, fEmbeddedTags
    {
      if fTag == PREF then fEmbeddedTags == []
      else
        && fTag == LIST_PREF && Distinct(fEmbeddedTags)
        && forall i :: 0 <= i < |fEmbeddedTags| ==> fEmbeddedTags[i] != this && fEmbeddedTags[i].IsValue()
    }

    /** The values of a preference, in order. */
    ghost function Values(): (s: seq<Text>)
      requires IsPref()
      reads this, fEmbeddedTags
      ensures fTag == LIST_PREF ==> |s| == |fEmbeddedTags| && forall i :: 0 <= i < |s| ==> s[i] == fEmbeddedTags[i].fValue.value
      ensures fTag == PREF ==> s == if fValue.Some? then [fValue.value] else []
    {
      if fTag == PREF then (if fValue.Some? then [fValue.value] else [])
      else seq(|fEmbeddedTags|, i requires 0 <= i < |fEmbeddedTags| && fEmbeddedTags[i].fValue.Some?
                                reads this, fEmbeddedTags => fEmbeddedTags[i].fValue.value)
    }
  }

  /** Of the other kinds of preference, an OBJECT counts as one value and an EMPTY-OBJECT as none. */
  method GetNumPrefValues(pref: XMLTag) returns (n: nat)
    requires pref.fTag == OBJECT || pref.fTag == EMPTY_OBJECT || pref.IsPref()
    ensures pref.fTag == OBJECT ==> n == 1
    ensures pref.fTag == EMPTY_OBJECT ==> n == 0
    ensures pref.IsPref() ==> n == |pref.Values()|
  {
    if pref.fTag == PREF {
      return if pref.fValue == None then 0 else 1;
    } else if pref.fTag == OBJECT {
      return 1;
    } else if pref.fTag == EMPTY_OBJECT {
      return 0;
    }
    return |pref.fEmbeddedTags|;
  }

  /** The type a preference is declared with: that of its attribute, by default text. */
  ghost predicate HasType(pref: XMLTag, dataType: Text)
    reads pref
  {
    || (FirstAttribute(pref.fAttributes, TYPE_ATTR, None) && dataType == "CharArray")
    || FirstAttribute(pref.fAttributes, TYPE_ATTR, Some(dataType))
  }

  /** The value of a preference at an index, its name and its type. Objects have a type of their own and no value. */
  method GetPrefValueByRef(pref: XMLTag, inValueIndex: nat)
    returns (value: Option<Text>, outPrefName: Option<Text>, outDataType: Text)
    requires pref.IsPref() || pref.fTag in {OBJECT, OBJECT_LIST, EMPTY_OBJECT}
    ensures pref.IsPref() ==>
              value == if inValueIndex < |pref.Values()| then Some(pref.Values()[inValueIndex]) else None
    ensures !pref.IsPref() ==> value == None
    ensures FirstAttribute(pref.fAttributes, NAME_ATTR, outPrefName)
    ensures pref.fTag == OBJECT || pref.fTag == OBJECT_LIST ==> outDataType == "QTSS_Object"
    ensures pref.fTag != OBJECT && pref.fTag != OBJECT_LIST ==> HasType(pref, outDataType)
  {
    outPrefName := pref.GetAttributeValue(NAME_ATTR);
    var typeAttr := pref.GetAttributeValue(TYPE_ATTR);
    outDataType := if typeAttr == None then "CharArray" else typeAttr.value;
    value := None;
    if pref.fTag == PREF {
      value := if inValueIndex > 0 then None else pref.fValue;
      return;
    }
    if pref.fTag == LIST_PREF {
      var tag := pref.GetEmbeddedTag(inValueIndex);
      if tag != null {
        value := tag.fValue;
        return;
      }
    }
    if pref.fTag == OBJECT || pref.fTag == OBJECT_LIST {
      outDataType := "QTSS_Object";
    }
  }

  /** Adds a value behind the others; a PREF that has one becomes a LIST-PREF of two. */
  method AddPrefValue(pref: XMLTag, inNewValue: Text)
    requires pref.IsPref()
    modifies pref
    ensures pref.IsPref() && pref.Values() == old(pref.Values()) + [inNewValue]
    ensures pref.fTag == LIST_PREF <==> old(pref.fTag == LIST_PREF || pref.fValue.Some?)
    ensures forall tag :: tag in pref.fEmbeddedTags ==> tag in old(pref.fEmbeddedTags) || fresh(tag)
  {
    if pref.fTag == PREF {
      if pref.fValue == None {
        pref.SetValue(Some(inNewValue));
        return;
      } else {
        var firstValue := pref.fValue;
        var value := new XMLTag(VALUE);
        value.SetValue(firstValue);
        pref.fTag := LIST_PREF;
        pref.SetValue(None);
        pref.AddEmbeddedTag(value);
      }
    }
    if pref.fTag == LIST_PREF {
      var value := new XMLTag(VALUE);
      value.SetValue(Some(inNewValue));
      pref.AddEmbeddedTag(value);
    }
  }

  /** The update SetPrefValue stands for: it replaces the value at an index, or adds one at the end. */
  function Updated(values: seq<Text>, i: nat, value: Text): seq<Text> {
    if i < |values| then values[i := value]
    else if i == |values| then values + [value]
    else values
  }

  /** What SetPrefValue makes of the values: on a LIST-PREF with fewer than two values, index 0 sets the value of the
      list's own tag, which is none of the preference's values. */
  function SetAt(values: seq<Text>, i: nat, value: Text, list: bool): seq<Text> {
    if list && |values| < 2 && i == 0 then values else Updated(values, i, value)
  }

  lemma SetUpdatesUnlessShortList(values: seq<Text>, i: nat, value: Text, list: bool)
    ensures SetAt(values, i, value, list) == Updated(values, i, value)
            <==> !list || 2 <= |values| || 0 < i || values == [value]
  {
    if list && |values| < 2 && i == 0 {
      assert Updated(values, i, value) == [value];
    }
  }

  /** Makes the update exactly when the preference is not a short list set at index 0 (or already holds just that
      value). */
  method SetPrefValue(pref: XMLTag, inValueIndex: nat, inNewValue: Text)
    requires pref.IsPref()
    modifies pref, pref.fEmbeddedTags
    ensures pref.IsPref()
    ensures pref.Values() == SetAt(old(pref.Values()), inValueIndex, inNewValue, old(pref.fTag) == LIST_PREF)
    ensures pref.Values() == Updated(old(pref.Values()), inValueIndex, inNewValue)
            <==> old(pref.fTag) != LIST_PREF || 2 <= |old(pref.Values())| || 0 < inValueIndex
                 || old(pref.Values()) == [inNewValue]
    ensures pref.fTag == LIST_PREF <==> old(pref.fTag) == LIST_PREF || inValueIndex == old(|pref.Values()|) == 1
  {
    SetUpdatesUnlessShortList(pref.Values(), inValueIndex, inNewValue, pref.fTag == LIST_PREF);
    var numValues := GetNumPrefValues(pref);
    if (numValues == 0 || numValues == 1) && inValueIndex == 0 {
      pref.SetValue(Some(inNewValue));
    } else if inValueIndex == numValues {
      AddPrefValue(pref, inNewValue);
    } else {
      var value := pref.GetEmbeddedTag(inValueIndex);
      if value != null {
        value.SetValue(Some(inNewValue));
      }
    }
  }

  /** A list without values that loses the value it is set to. */
  method ShortListExample() returns (pref: XMLTag)
    ensures pref.fTag == LIST_PREF && pref.IsPref() && pref.Values() == [] != Updated([], 0, "x")
  {
    pref := new XMLTag(LIST_PREF);
    SetPrefValue(pref, 0, "x");
  }

  /** Leaves a PREF that holds the other one of two values. */
  method RemoveOneOfTwo(pref: XMLTag, inValueIndex: nat)
    requires pref.IsPref() && inValueIndex < |pref.Values()| == 2
    modifies pref
    ensures pref.IsPref() && pref.fTag == PREF
    ensures pref.Values() == [old(pref.Values())[1 - inValueIndex]]
  {
    var value := pref.GetEmbeddedTag(inValueIndex);
    pref.RemoveEmbeddedTag(value);
    value := pref.GetEmbeddedTag(0);
    pref.RemoveEmbeddedTag(value);
    var temp := value.fValue;
    pref.fTag := PREF;
    pref.SetValue(temp);
  }

  method RemoveOneOfMany(pref: XMLTag, inValueIndex: nat)
    requires pref.IsPref() && inValueIndex < |pref.Values()| && 2 < |pref.Values()|
    modifies pref
    ensures pref.IsPref() && pref.fTag == LIST_PREF
    ensures pref.Values() == Without(old(pref.Values()), inValueIndex)
  {
    var value := pref.GetEmbeddedTag(inValueIndex);
    if value != null {
      pref.RemoveEmbeddedTag(value);
    }
  }

  /** Removes one value. The last value takes the preference out of its container; the last but one turns the
      LIST-PREF back into a PREF. */
  method RemovePrefValue(pref: XMLTag, inValueIndex: nat, container: XMLTag)
    requires pref.IsPref() && container != pref && container !in pref.fEmbeddedTags
    requires Distinct(container.fEmbeddedTags) && pref in container.fEmbeddedTags
    modifies pref, container`fEmbeddedTags
    ensures pref.IsPref()
    ensures old(|pref.Values()|) <= inValueIndex ==>
              pref.Values() == old(pref.Values()) && pref.fTag == old(pref.fTag)
    ensures inValueIndex < old(|pref.Values()|) == 1 ==>
              exists i :: 0 <= i < |old(container.fEmbeddedTags)| && old(container.fEmbeddedTags)[i] == pref
                          && container.fEmbeddedTags == Without(old(container.fEmbeddedTags), i)
    ensures !(inValueIndex < old(|pref.Values()|) == 1) ==> container.fEmbeddedTags == old(container.fEmbeddedTags)
    ensures inValueIndex < old(|pref.Values()|) && 2 <= old(|pref.Values()|) ==>
              && pref.Values() == Without(old(pref.Values()), inValueIndex)
              && (pref.fTag == PREF <==> old(|pref.Values()|) == 2)
  {
    var numValues := GetNumPrefValues(pref);
    if inValueIndex >= numValues {
      return;
    }
    if numValues == 1 {
      ghost var i :| 0 <= i < |container.fEmbeddedTags| && container.fEmbeddedTags[i] == pref;
      container.RemoveEmbeddedTag(pref);
    } else if numValues == 2 {
      RemoveOneOfTwo(pref, inValueIndex);
    } else {
      RemoveOneOfMany(pref, inValueIndex);
    }
  }
}
