/**
  Struct field tags from `structs/tag.go`: a tag such as
  `"name,omitempty"` is a name and a list of options.
 */
module StructTag {
  import opened Text
  import opened StrUtil

  /** `Tag` (tag.go:8-11). */
  datatype Tag = Tag(name: string, options: seq<string>)

  /** `newTag` (tag.go:13-19): the pieces of `strings.Split(tag, ",")`;
      the first is the name and the rest are the options. */
  function NewTag(tag: string): (t: Tag)
    ensures Join([t.name] + t.options, ",") == tag
    ensures Index(t.name, ",") == -1
    ensures forall i :: 0 <= i < |t.options| ==> Index(t.options[i], ",") == -1
  {
    var res := Pieces(tag, ",", false);
    assert [res[0]] + res[1..] == res;
    Tag(res[0], res[1..])
  }

  /** The name is the text before the first comma, or all of it when
      there is none. */
  lemma NewTagName(tag: string)
    ensures var m := Index(tag, ",");
      NewTag(tag).name == if m == -1 then tag else tag[..m]
    ensures Index(tag, ",") == -1 ==> NewTag(tag).options == []
  {
  }

  /** `HasOption` (tag.go:22-29): the loop over the options. */
  method HasOption(t: Tag, opt: string) returns (found: bool)
    ensures found <==> opt in t.options
  {
    for i := 0 to |t.options|
      invariant opt !in t.options[..i]
    {
      if t.options[i] == opt {
        return true;
      }
      assert t.options[..i + 1] == t.options[..i] + [t.options[i]];
    }
    assert t.options[..|t.options|] == t.options;
    return false;
  }

  /** The name is no option: a tag without a comma has none, whatever
      its name. */
  lemma NameIsNoOption(tag: string, opt: string)
    requires Index(tag, ",") == -1
    ensures opt !in NewTag(tag).options
  {
    NewTagName(tag);
  }

  /** `IsEmpty` (tag.go:32-34): `validator.IsEmptyString` of the name,
      which tests for length zero (validator.go:303-305). */
  function IsEmpty(t: Tag): (b: bool)
    ensures b <==> |t.name| == 0
  {
    |t.name| == 0
  }

  /** A tag has an empty name exactly when it is "" or starts with a
      comma, as `",omitempty"` does. */
  lemma EmptyName(tag: string)
    ensures IsEmpty(NewTag(tag)) <==> tag == "" || tag[0] == ','
  {
    NewTagName(tag);
    var m := Index(tag, ",");
    if m == 0 {
      assert tag[0..1] == ",";
    } else if tag != "" {
      assert !OccursAt(tag, ",", 0);
      assert tag[0..1] == [tag[0]];
    }
  }
}
