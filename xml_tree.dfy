/**
 * An abstract XML tree standing in for the host IDE's parsed file (its PSI tree).
 * Parsing text into this tree is done by the host and is taken as given.
 */
module XmlTree {
  import opened Wrappers

  /** An XML element: its name, its attributes and its direct child elements, in document order. */
  datatype Tag = Tag(name: string, attrs: map<string, string>, subTags: seq<Tag>)

  /**
   * What the indexer is handed for one file: the file's path, whether the host parsed it
   * as an XML file, and the document's root-level tags (None when the file has no document).
   */
  datatype FileContent = FileContent(path: string, isXml: bool, document: Option<seq<Tag>>)

  /** The value of attribute `name` on `t`, or None where the host returns null. */
  function AttributeValue(t: Tag, name: string): (v: Option<string>)
  {
    if name in t.attrs then Some(t.attrs[name]) else None
  }

  /** The tags of `tags` named `name`. */
  function TagsNamed(tags: seq<Tag>, name: string): (r: seq<Tag>)
    ensures |r| <= |tags|
    ensures forall g :: g in r <==> g in tags && g.name == name
  {
    if tags == [] then []
    else if tags[0].name == name then [tags[0]] + TagsNamed(tags[1..], name)
    else TagsNamed(tags[1..], name)
  }

  /** The direct sub-tags of `t` named `name` (never a deeper descendant). */
  function SubTagsNamed(t: Tag, name: string): (r: seq<Tag>)
    ensures forall g :: g in r <==> g in t.subTags && g.name == name
  {
    TagsNamed(t.subTags, name)
  }
}
