/** Node labels: the default label generator's fallback chain, the older
    node's label, and the cropping both apply. */
module Labels {
  import opened Wrappers
  import opened Strings
  import opened NodeDataModel

  /** The older node's LABEL_MAXIMUM_CHARACTERS. */
  const LabelMaximumCharacters := 30

  /** What a cropped label ends with: a space and a horizontal ellipsis. */
  const Ellipsis := " …"

  /** substr(s, 0, max), followed by the ellipsis iff that shortened s. */
  function Crop(s: string, max: nat): (r: string)
    ensures |s| <= max ==> r == s
    ensures |s| > max ==> r == s[..max] + Ellipsis
    ensures |r| <= max + |Ellipsis|
  {
    var cropped := if |s| <= max then s else s[..max];
    cropped + (if |cropped| < |s| then Ellipsis else "")
  }

  /** A label keeps its first max characters, and is left untouched exactly when it
      is short enough or is a label that already ends in the ellipsis at max. */
  lemma CropSpec(s: string, max: nat)
    ensures |s| <= max ==> Crop(s, max)[..|s|] == s
    ensures |s| > max ==> Crop(s, max)[..max] == s[..max]
    ensures Crop(s, max) == s <==>
      |s| <= max || (|s| == max + |Ellipsis| && s[max..] == Ellipsis)
  {
    if |s| > max {
      var r := Crop(s, max);
      assert r[..max] == s[..max];
      assert r[max..] == Ellipsis;
      if |s| == max + |Ellipsis| && s[max..] == Ellipsis {
        assert s == s[..max] + s[max..];
      }
    }
  }

  /** PHP's conversion of a property value to a string. */
  function ValueString(v: Value): string
  {
    match v
    case NullValue => ""
    case Text(t) => t
    case Number(n) => if n < 0 then "-" + NatToString(-n) else NatToString(n)
    case Flag(b) => if b then "1" else ""
  }

  /** A property counts as a label source when it is present and not the empty string. */
  predicate Usable(p: Option<Value>)
  {
    p.Some? && p.value != Text("")
  }

  /** The node as DefaultNodeLabelGenerator sees it: its title and text properties
      (absent when hasProperty is false), its node type name and its name. */
  datatype LabelSource = LabelSource(title: Option<Value>, text: Option<Value>, nodeTypeName: string, nodeName: string)

  /** The fallback label: "(" node type ") " name. */
  function TypeAndName(nodeTypeName: string, nodeName: string): string
  {
    "(" + nodeTypeName + ") " + nodeName
  }

  /** DefaultNodeLabelGenerator.getLabel; strip_tags is the parameter stripTags. */
  function DefaultLabel(n: LabelSource, stripTags: string -> string, max: nat): (r: string)
  {
    var s :=
      if Usable(n.title) then stripTags(ValueString(n.title.value))
      else if Usable(n.text) then stripTags(ValueString(n.text.value))
      else TypeAndName(n.nodeTypeName, n.nodeName);
    Crop(s, max)
  }

  /** The title wins when usable, then the text, then the type and name; the
      result is never longer than max plus the ellipsis and starts with the
      chosen source. */
  lemma DefaultLabelSpec(n: LabelSource, stripTags: string -> string, max: nat)
    ensures |DefaultLabel(n, stripTags, max)| <= max + |Ellipsis|
    ensures Usable(n.title) ==> DefaultLabel(n, stripTags, max) == Crop(stripTags(ValueString(n.title.value)), max)
    ensures !Usable(n.title) && Usable(n.text) ==>
      DefaultLabel(n, stripTags, max) == Crop(stripTags(ValueString(n.text.value)), max)
    ensures !Usable(n.title) && !Usable(n.text) ==>
      DefaultLabel(n, stripTags, max) == Crop(TypeAndName(n.nodeTypeName, n.nodeName), max)
    ensures !Usable(n.title) && !Usable(n.text) && |TypeAndName(n.nodeTypeName, n.nodeName)| <= max ==>
      DefaultLabel(n, stripTags, max)[|n.nodeTypeName| + 3..] == n.nodeName
  {
    var fallback := TypeAndName(n.nodeTypeName, n.nodeName);
    if !Usable(n.title) && !Usable(n.text) && |fallback| <= max {
      assert fallback[|n.nodeTypeName| + 3..] == n.nodeName;
    }
  }

  /** The older node's getLabel: the title when the node has one, otherwise
      "(" content type ") " name, cropped to LABEL_MAXIMUM_CHARACTERS. */
  function LegacyLabel(title: Option<Value>, contentType: string, name: string, stripTags: string -> string): (r: string)
    ensures |r| <= LabelMaximumCharacters + |Ellipsis|
    ensures title.Some? ==> r == Crop(stripTags(ValueString(title.value)), LabelMaximumCharacters)
    ensures title.None? ==> r == Crop(TypeAndName(contentType, name), LabelMaximumCharacters)
  {
    var s := if title.Some? then stripTags(ValueString(title.value)) else TypeAndName(contentType, name);
    Crop(s, LabelMaximumCharacters)
  }

  /** Unlike the default generator, the older label takes an empty title as it is. */
  lemma LegacyLabelEmptyTitle(contentType: string, name: string)
    ensures LegacyLabel(Some(Text("")), contentType, name, s => s) == ""
    ensures DefaultLabel(LabelSource(Some(Text("")), None, contentType, name), s => s, LabelMaximumCharacters) ==
      Crop(TypeAndName(contentType, name), LabelMaximumCharacters)
    ensures DefaultLabel(LabelSource(Some(Text("")), None, contentType, name), s => s, LabelMaximumCharacters) != ""
  {
  }
}
