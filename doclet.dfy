/** The part of a jsdoc doclet the name resolver touches: its tags, read
    with `tagValue` and written with `setTag`, the access levels added
    with `addTag('access', …)`, its `path` property and whether it
    documents an inner symbol (`isInner()`, read off the access levels). */
module Doclets {
  import opened Strings

  /** `tagValue(title)`: the value of a tag, if the doclet has one. */
  function TagValue(tags: map<string, string>, title: string): Option<string> {
    if title in tags then Some(tags[title]) else None
  }

  /** `tagValue(title) || ''`: a missing tag reads as the empty string. */
  function TagOr(tags: map<string, string>, title: string): string {
    if title in tags then tags[title] else ""
  }

  /** What the resolver reads of a doclet found in the registry, taken as
      a value at the moment it is read. */
  datatype DocState = DocState(tags: map<string, string>, path: string, inner: bool)

  class Doclet {
    var tags: map<string, string>
    var access: seq<string>
    /** The `path` property ("" when it is not set). */
    var path: string

    constructor (tags: map<string, string>, path: string, access: seq<string>)
      ensures this.tags == tags && this.path == path && this.access == access
    {
      this.tags := tags;
      this.path := path;
      this.access := access;
    }

    /** `isInner()`: the doclet has access level `inner`. */
    predicate IsInner()
      reads this
    {
      "inner" in access
    }

    function State(): DocState
      reads this
    {
      DocState(tags, path, IsInner())
    }

    /** `setTag(title, value)`: the tag now has that value, every other
        tag and property is as it was. */
    method SetTag(title: string, value: string)
      modifies this`tags
      ensures tags == old(tags)[title := value]
    {
      tags := tags[title := value];
    }

    /** `addTag('access', level)`: one more access level. */
    method AddAccess(level: string)
      modifies this`access
      ensures access == old(access) + [level]
    {
      access := access + [level];
    }
  }
}
