/**
 * The file-based index of cron groups: for one `cron_groups.xml` file it maps every
 * group id declared as `<config><group id="..."/></config>` to the file's path.
 */
module CronGroupIndex {
  import opened Wrappers
  import opened XmlTree

  /** The index's identifier, under which the host stores it. */
  const IndexName: string := "com.magento.idea.magento2plugin.stubs.indexes.cron_tabs"
  /** The index's format version; the host rebuilds the index when it changes. */
  const IndexVersion: int := 1

  const ConfigTagName: string := "config"
  const GroupTagName: string := "group"
  const IdAttributeName: string := "id"
  const CronGroupsBaseName: string := "cron_groups"

  // ---------------------------------------------------------------------------
  // Input filter

  /** The host offers a file to the indexer only if it is XML and its name without extension is `cron_groups`. */
  predicate InputFilter(isXml: bool, nameWithoutExtension: string)
  {
    isXml && nameWithoutExtension == CronGroupsBaseName
  }

  // ---------------------------------------------------------------------------
  // What a document declares

  /** `g` is a group tag whose `id` attribute is present and equal to `k`. */
  predicate IsGroupWithId(g: Tag, k: string)
  {
    g.name == GroupTagName && AttributeValue(g, IdAttributeName) == Some(k)
  }

  /** `t` is a `config` tag with a direct `group` sub-tag whose id is `k`. */
  ghost predicate ConfigDeclares(t: Tag, k: string)
  {
    t.name == ConfigTagName && exists g :: g in t.subTags && IsGroupWithId(g, k)
  }

  /** Some root-level `config` tag of `tags` declares group id `k`. */
  ghost predicate Declares(tags: seq<Tag>, k: string)
  {
    exists t :: t in tags && ConfigDeclares(t, k)
  }

  // ---------------------------------------------------------------------------
  // The extraction, as functions that follow the indexer's loops

  /**
   * `acc` after putting (id, path) for every group of `groups` that carries an id, first to last.
   * Every id carried by a group maps to `path`; every other key of `acc` keeps its value.
   */
  function PutGroups(acc: map<string, string>, groups: seq<Tag>, path: string): (m: map<string, string>)
    ensures forall k :: k in m <==> k in acc || exists g :: g in groups && AttributeValue(g, IdAttributeName) == Some(k)
    ensures forall g :: g in groups && AttributeValue(g, IdAttributeName).Some? ==>
      m[AttributeValue(g, IdAttributeName).value] == path
    ensures forall k :: k in acc && (forall g :: g in groups ==> AttributeValue(g, IdAttributeName) != Some(k)) ==>
      m[k] == acc[k]
    decreases |groups|
  {
    if groups == [] then acc
    else
      var pre := groups[..|groups| - 1];
      var last := groups[|groups| - 1];
      assert forall g :: g in groups ==> g in pre || g == last;
      assert forall g :: g in pre ==> g in groups;
      var m := PutGroups(acc, pre, path);
      match AttributeValue(last, IdAttributeName)
      case Some(id) => m[id := path]
      case None => m
  }

  /** The entries contributed by the root-level tags `tags`, processed first to last. */
  function ConfigEntries(tags: seq<Tag>, path: string): (m: map<string, string>)
    ensures forall k :: k in m <==> Declares(tags, k)
    ensures forall k :: k in m ==> m[k] == path
    decreases |tags|
  {
    if tags == [] then map[]
    else
      var m := ConfigEntries(tags[..|tags| - 1], path);
      var t := tags[|tags| - 1];
      DeclaresByLastTag(tags);
      if t.name == ConfigTagName then
        ConfigDeclaresByGroups(t);
        PutGroups(m, SubTagsNamed(t, GroupTagName), path)
      else m
  }

  /** A non-empty tag sequence declares exactly what its prefix and its last tag declare. */
  lemma DeclaresByLastTag(tags: seq<Tag>)
    requires tags != []
    ensures forall k :: Declares(tags, k) <==> Declares(tags[..|tags| - 1], k) || ConfigDeclares(tags[|tags| - 1], k)
  {
  }

  /** A `config` tag declares exactly the ids of the `group` sub-tags the indexer iterates. */
  lemma ConfigDeclaresByGroups(t: Tag)
    requires t.name == ConfigTagName
    ensures forall k :: ConfigDeclares(t, k) <==>
      exists g :: g in SubTagsNamed(t, GroupTagName) && AttributeValue(g, IdAttributeName) == Some(k)
  {
  }

  /**
   * The index's value for one file: empty when the feature is disabled, the file is not XML,
   * it has no document or the document has no root-level tags; otherwise every declared group
   * id mapped to the file's path.
   */
  function Extract(file: FileContent, enabled: bool): (r: map<string, string>)
    ensures !enabled || !file.isXml || file.document == None || file.document == Some([]) ==> r == map[]
    ensures forall k :: k in r <==> enabled && file.isXml && file.document.Some? && Declares(file.document.value, k)
    ensures forall k :: k in r ==> r[k] == file.path
  {
    if !enabled then map[]
    else if !file.isXml then map[]
    else match file.document
      case None => map[]
      case Some(tags) => if tags == [] then map[] else ConfigEntries(tags, file.path)
  }

  // ---------------------------------------------------------------------------
  // The indexer, updating a local map on each iteration

  /** The indexer: guards first, then a loop over the root tags and, for each `config`, over its `group` sub-tags. */
  method Index(file: FileContent, enabled: bool) returns (m: map<string, string>)
    ensures m == Extract(file, enabled)
  {
    m := map[];
    if !enabled {
      return;
    }
    if !file.isXml {
      return;
    }
    if file.document.None? {
      return;
    }
    var tags := file.document.value;
    if tags == [] {
      return;
    }
    var path := file.path;
    var i := 0;
    while i < |tags|
      invariant 0 <= i <= |tags|
      invariant m == ConfigEntries(tags[..i], path)
    {
      var tag := tags[i];
      if tag.name == ConfigTagName {
        var groups := SubTagsNamed(tag, GroupTagName);
        var j := 0;
        while j < |groups|
          invariant 0 <= j <= |groups|
          invariant m == PutGroups(ConfigEntries(tags[..i], path), groups[..j], path)
        {
          var groupId := AttributeValue(groups[j], IdAttributeName);
          if groupId.Some? {
            m := m[groupId.value := path];
          }
          assert groups[..j + 1][..j] == groups[..j];
          j := j + 1;
        }
        assert groups[..j] == groups;
      }
      assert tags[..i + 1][..i] == tags[..i];
      i := i + 1;
    }
    assert tags[..i] == tags;
  }

  // ---------------------------------------------------------------------------
  // Properties of the extraction

  /** The input filter accepts exactly XML files whose name without extension is `cron_groups`, case included. */
  lemma InputFilterAcceptsOnlyCronGroups(isXml: bool, nameWithoutExtension: string)
    ensures InputFilter(isXml, nameWithoutExtension) <==> isXml && nameWithoutExtension == "cron_groups"
    ensures !InputFilter(true, "Cron_Groups") && !InputFilter(true, "cron_groups.xml") && !InputFilter(true, "")
  {
  }

  /** Two documents that declare the same ids give the same index value, whatever their tags and order. */
  lemma SameDeclarationsSameIndex(file: FileContent, a: seq<Tag>, b: seq<Tag>, enabled: bool)
    requires forall k :: Declares(a, k) <==> Declares(b, k)
    ensures Extract(file.(document := Some(a)), enabled) == Extract(file.(document := Some(b)), enabled)
  {
  }

  /** Reordering the root-level tags does not change the index value. */
  lemma RootOrderIrrelevant(file: FileContent, a: seq<Tag>, b: seq<Tag>, enabled: bool)
    requires multiset(a) == multiset(b)
    ensures Extract(file.(document := Some(a)), enabled) == Extract(file.(document := Some(b)), enabled)
  {
    forall t
      ensures t in a <==> t in b
    {
      assert t in a <==> t in multiset(a);
      assert t in b <==> t in multiset(b);
    }
    SameDeclarationsSameIndex(file, a, b, enabled);
  }

  /** Reordering the sub-tags of one root-level tag does not change the index value. */
  lemma GroupOrderIrrelevant(file: FileContent, pre: seq<Tag>, t: Tag, subTags: seq<Tag>, post: seq<Tag>, enabled: bool)
    requires multiset(t.subTags) == multiset(subTags)
    ensures Extract(file.(document := Some(pre + [t] + post)), enabled)
         == Extract(file.(document := Some(pre + [t.(subTags := subTags)] + post)), enabled)
  {
    var t' := t.(subTags := subTags);
    forall g
      ensures g in t.subTags <==> g in t'.subTags
    {
      assert g in t.subTags <==> g in multiset(t.subTags);
      assert g in t'.subTags <==> g in multiset(t'.subTags);
    }
    ReplaceTag(pre, t, t', post);
    SameDeclarationsSameIndex(file, pre + [t] + post, pre + [t'] + post, enabled);
  }

  /** A root-level tag not named `config` contributes nothing, wherever it stands. */
  lemma NonConfigTagIgnored(file: FileContent, pre: seq<Tag>, t: Tag, post: seq<Tag>, enabled: bool)
    requires t.name != ConfigTagName
    ensures Extract(file.(document := Some(pre + [t] + post)), enabled)
         == Extract(file.(document := Some(pre + post)), enabled)
  {
  }

  /** A sub-tag of a root-level tag that is not a `group`, or has no `id` attribute, contributes nothing. */
  lemma SubTagWithoutIdIgnored(file: FileContent, pre: seq<Tag>, t: Tag, before: seq<Tag>, g: Tag, after: seq<Tag>,
                               post: seq<Tag>, enabled: bool)
    requires g.name != GroupTagName || IdAttributeName !in g.attrs
    ensures Extract(file.(document := Some(pre + [t.(subTags := before + [g] + after)] + post)), enabled)
         == Extract(file.(document := Some(pre + [t.(subTags := before + after)] + post)), enabled)
  {
    var t1 := t.(subTags := before + [g] + after);
    var t2 := t.(subTags := before + after);
    forall k
      ensures ConfigDeclares(t1, k) <==> ConfigDeclares(t2, k)
    {
      if ConfigDeclares(t1, k) {
        var h :| h in t1.subTags && IsGroupWithId(h, k);
        assert h in t2.subTags;
      }
      if ConfigDeclares(t2, k) {
        var h :| h in t2.subTags && IsGroupWithId(h, k);
        assert h in t1.subTags;
      }
    }
    ReplaceTag(pre, t1, t2, post);
    SameDeclarationsSameIndex(file, pre + [t1] + post, pre + [t2] + post, enabled);
  }

  /** Replacing one root-level tag by another that declares the same ids keeps what the document declares. */
  lemma ReplaceTag(pre: seq<Tag>, t: Tag, t': Tag, post: seq<Tag>)
    requires forall k :: ConfigDeclares(t, k) <==> ConfigDeclares(t', k)
    ensures forall k :: Declares(pre + [t] + post, k) <==> Declares(pre + [t'] + post, k)
  {
  }

  /** `t` with its own sub-tags kept but their sub-tags dropped: the depth the indexer looks at. */
  function Prune(t: Tag): Tag
  {
    t.(subTags := seq(|t.subTags|, i requires 0 <= i < |t.subTags| => t.subTags[i].(subTags := [])))
  }

  function PruneAll(tags: seq<Tag>): seq<Tag>
  {
    seq(|tags|, i requires 0 <= i < |tags| => Prune(tags[i]))
  }

  /** Tags nested below the direct sub-tags of a root-level tag, `group`s included, contribute nothing. */
  lemma DeepTagsIgnored(file: FileContent, tags: seq<Tag>, enabled: bool)
    ensures Extract(file.(document := Some(tags)), enabled) == Extract(file.(document := Some(PruneAll(tags))), enabled)
  {
    var pruned := PruneAll(tags);
    forall k
      ensures Declares(tags, k) ==> Declares(pruned, k)
      ensures Declares(pruned, k) ==> Declares(tags, k)
    {
      if Declares(tags, k) {
        var t :| t in tags && ConfigDeclares(t, k);
        var i :| 0 <= i < |tags| && tags[i] == t;
        var g :| g in t.subTags && IsGroupWithId(g, k);
        var j :| 0 <= j < |t.subTags| && t.subTags[j] == g;
        assert pruned[i].subTags[j] == g.(subTags := []);
        assert IsGroupWithId(pruned[i].subTags[j], k);
        assert pruned[i].subTags[j] in pruned[i].subTags;
        assert ConfigDeclares(pruned[i], k);
      }
      if Declares(pruned, k) {
        var t :| t in pruned && ConfigDeclares(t, k);
        var i :| 0 <= i < |pruned| && pruned[i] == t;
        var g :| g in t.subTags && IsGroupWithId(g, k);
        var j :| 0 <= j < |t.subTags| && t.subTags[j] == g;
        assert tags[i].subTags[j].(subTags := []) == g;
        assert IsGroupWithId(tags[i].subTags[j], k);
        assert ConfigDeclares(tags[i], k);
      }
    }
    SameDeclarationsSameIndex(file, tags, pruned, enabled);
  }

  // ---------------------------------------------------------------------------
  // Worked examples

  /** A `group` tag with the given id and no sub-tags. */
  function Group(id: string): Tag
  {
    Tag(GroupTagName, map[IdAttributeName := id], [])
  }

  /** `<config><group id="g1"/><group id="g2"/></config>` indexes both ids. */
  lemma TwoGroupsExample(path: string)
    ensures Extract(FileContent(path, true, Some([Tag("config", map[], [Group("g1"), Group("g2")])])), true)
         == map["g1" := path, "g2" := path]
  {
  }

  /** `<config><group/></config>`: a group without an id gives an empty index value. */
  lemma GroupWithoutIdExample(path: string)
    ensures Extract(FileContent(path, true, Some([Tag("config", map[], [Tag("group", map[], [])])])), true) == map[]
  {
  }

  /** `<notconfig><group id="g1"/></notconfig>`: groups outside a `config` tag give an empty index value. */
  lemma GroupOutsideConfigExample(path: string)
    ensures Extract(FileContent(path, true, Some([Tag("notconfig", map[], [Group("g1")])])), true) == map[]
  {
  }

  /** Two `config` blocks both declaring `dup` give a single entry. */
  lemma DuplicateIdExample(path: string)
    ensures Extract(FileContent(path, true, Some([Tag("config", map[], [Group("dup")]), Tag("config", map[], [Group("dup")])])), true)
         == map["dup" := path]
  {
  }

  /** Only a missing id is skipped: `<config><group id=""/></config>` indexes the empty id. */
  lemma EmptyIdExample(path: string)
    ensures Extract(FileContent(path, true, Some([Tag("config", map[], [Group("")])])), true) == map["" := path]
  {
  }
}
