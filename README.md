# Cron group index

A model of the Magento 2 IDE plugin's cron group index
(`src/com/magento/idea/magento2plugin/stubs/indexes/CronGroupIndex.java`). The IDE offers every
`cron_groups.xml` file to the index; for each file the indexer returns a map from every cron
group id the file declares to the file's path, and the IDE stores and merges those maps.

The model has three modules:

- `Wrappers` (`wrappers.dfy`): the `Option` type standing for a possibly-null reference.
- `XmlTree` (`xml_tree.dfy`): the parsed XML file as the indexer sees it. A `Tag` has a name,
  attributes and direct sub-tags. A `FileContent` has the file's path, whether the host parsed
  it as an XML file, and the document's root-level tags (`None` when there is no document).
  `AttributeValue` is `getAttributeValue` and `SubTagsNamed` is `findSubTags`.
- `CronGroupIndex` (`cron_group_index.dfy`): the index itself.
  - `IndexName` and `IndexVersion` are the constant index id and version 1.
  - `InputFilter` is the file filter.
  - `Extract` is the indexer's result as a function. It is built from `ConfigEntries` and
    `PutGroups`, which follow the two nested loops tag by tag.
  - `Index` is the indexer as written: early returns, then a local map updated on each
    iteration of the two loops. It is proved to return `Extract`.
  - `Declares` is the declarative reading: some root-level `config` tag has a direct `group`
    sub-tag whose `id` attribute is present and equal to the key.
  - Lemmas state what the result does and does not depend on, plus worked examples.

The project-settings switch is the `enabled` parameter. The file type and the file name
without its extension are given to `InputFilter` as inputs.

Two edge cases follow the code exactly. The indexer skips a group only when its `id` attribute
is missing (`CronGroupIndex.java:69`): an empty `id` is still a key (`EmptyIdExample`). A later
group with an id already seen overwrites the earlier entry (`CronGroupIndex.java:70`), but every
value the indexer puts is the same file path, so duplicates and tag order never change the
result (`DuplicateIdExample`, `RootOrderIrrelevant`, `GroupOrderIrrelevant`).

## Model

| member | source | states |
|---|---|---|
| `CronGroupIndex.IndexName` | src/com/magento/idea/magento2plugin/stubs/indexes/CronGroupIndex.java:28-29 | the index's constant id string, `com.magento.idea.magento2plugin.stubs.indexes.cron_tabs` |
| `CronGroupIndex.IndexVersion` | src/com/magento/idea/magento2plugin/stubs/indexes/CronGroupIndex.java:105-107 | the index's format version, the constant 1 |
| `XmlTree.TagsNamed` | src/com/magento/idea/magento2plugin/stubs/indexes/CronGroupIndex.java:66 | a tag is in the result iff it is in the input and has the requested name; the result is no longer than the input |
| `XmlTree.SubTagsNamed` | src/com/magento/idea/magento2plugin/stubs/indexes/CronGroupIndex.java:66 | the `group` sub-tags iterated are exactly the direct sub-tags with that name, never deeper descendants |
| `CronGroupIndex.PutGroups` | src/com/magento/idea/magento2plugin/stubs/indexes/CronGroupIndex.java:66-72 | after the inner loop the map holds the keys it had plus exactly the ids present on the groups; every id carried by a group maps to the path; every other key keeps its value |
| `CronGroupIndex.ConfigEntries` | src/com/magento/idea/magento2plugin/stubs/indexes/CronGroupIndex.java:64-74 | after the outer loop a key is present iff some root-level `config` tag has a direct `group` sub-tag with that id; every value is the path |
| `CronGroupIndex.Extract` | src/com/magento/idea/magento2plugin/stubs/indexes/CronGroupIndex.java:40-78 | empty when the feature is disabled, the file is not XML, it has no document or no root-level tags; otherwise a key is present iff the document declares it under a root `config`, and every value is the file's path |
| `CronGroupIndex.Index` | src/com/magento/idea/magento2plugin/stubs/indexes/CronGroupIndex.java:41-77 | the guards and the two nested loops, updating a local map on each iteration, return exactly `Extract` of the file |
| `CronGroupIndex.InputFilter` | src/com/magento/idea/magento2plugin/stubs/indexes/CronGroupIndex.java:94-97 | the host's file filter: an XML file whose name without extension is `cron_groups`; its meaning is stated by `InputFilterAcceptsOnlyCronGroups` |
| `CronGroupIndex.InputFilterAcceptsOnlyCronGroups` | src/com/magento/idea/magento2plugin/stubs/indexes/CronGroupIndex.java:94-97 | a file is accepted iff it is XML and its name without extension is exactly `cron_groups`; `Cron_Groups`, `cron_groups.xml` and the empty name are rejected |
| `CronGroupIndex.SameDeclarationsSameIndex` | src/com/magento/idea/magento2plugin/stubs/indexes/CronGroupIndex.java:64-74 | the result depends on the document only through the set of ids it declares |
| `CronGroupIndex.RootOrderIrrelevant` | src/com/magento/idea/magento2plugin/stubs/indexes/CronGroupIndex.java:64-74 | reordering the root-level tags, `config` tags included, leaves the result unchanged |
| `CronGroupIndex.GroupOrderIrrelevant` | src/com/magento/idea/magento2plugin/stubs/indexes/CronGroupIndex.java:66-72 | reordering the sub-tags of any root-level tag leaves the result unchanged |
| `CronGroupIndex.NonConfigTagIgnored` | src/com/magento/idea/magento2plugin/stubs/indexes/CronGroupIndex.java:65 | inserting a root-level tag not named `config` anywhere leaves the result unchanged, whatever groups it holds |
| `CronGroupIndex.SubTagWithoutIdIgnored` | src/com/magento/idea/magento2plugin/stubs/indexes/CronGroupIndex.java:66-71 | inserting a sub-tag that is not a `group` or has no `id` attribute leaves the result unchanged |
| `CronGroupIndex.DeepTagsIgnored` | src/com/magento/idea/magento2plugin/stubs/indexes/CronGroupIndex.java:58-66 | dropping everything below the direct sub-tags of the root-level tags leaves the result unchanged, so deeper `group` tags contribute nothing |
| `CronGroupIndex.TwoGroupsExample` | src/com/magento/idea/magento2plugin/stubs/indexes/CronGroupIndex.java:64-74 | a `config` with groups `g1` and `g2` maps both to the path |
| `CronGroupIndex.GroupWithoutIdExample` | src/com/magento/idea/magento2plugin/stubs/indexes/CronGroupIndex.java:67-71 | a `config` whose only group has no `id` gives the empty map |
| `CronGroupIndex.GroupOutsideConfigExample` | src/com/magento/idea/magento2plugin/stubs/indexes/CronGroupIndex.java:65 | a group under a root-level `notconfig` tag gives the empty map |
| `CronGroupIndex.DuplicateIdExample` | src/com/magento/idea/magento2plugin/stubs/indexes/CronGroupIndex.java:70 | two `config` blocks declaring `dup` give a single entry |
| `CronGroupIndex.EmptyIdExample` | src/com/magento/idea/magento2plugin/stubs/indexes/CronGroupIndex.java:69-70 | an empty-string id is present and is recorded as a key |

## Left out

- Parsing the file's text into a tree (`getPsiFile`, `getDocument`, `getChildrenOfType`, `findSubTags`, `getAttributeValue`) is done by the host IDE: the parsed tree is the model's input, and `getAttributeValue` is defined as a lookup in the tag's attribute map. `getChildrenOfType` returning null when the document has no tags is the `Some([])` guard.
- `Settings.isEnabled(project)` reads project settings: it is the `enabled` parameter.
- The file type check and `getNameWithoutExtension` are host library code: `InputFilter` takes the XML flag and the extension-free name as inputs.
- `InputFilter` compares the file type by identity with the XML file type; the model reduces that to a boolean.
- The key and value descriptors (`getKeyDescriptor`, `getValueExternalizer`) and `dependsOnFileContent` only register serialisers and a flag with the host; they hold no logic.
- Storing per-file results, merging them across files, invalidation and scheduling are done by the host, not by this code.
- XML namespaces are not modelled: a tag's name is compared as a plain string.
- The test fixture base class `tests/com/magento/idea/magento2plugin/inspections/graphqls/InspectionGraphqlsFixtureTestCase.java` only configures a test harness and is not part of this model.
- Repeated calls with the same input give the same result because `Extract` is a function and `Index` keeps no state; no separate lemma states this.
