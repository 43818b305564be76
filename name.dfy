/** `jsdoc/name`: working out a doclet's name, container and path from its
    raw tags (`resolve`), rewriting `this.`-names and closure-local names
    (`resolveThis`, `resolveInner`), and the registry of documented syntax
    nodes those two consult (`refs`, `docFromNode`).

    The pure functions here are the specification; the `Resolver` class
    holds the module state (the current module name and the registry) and
    carries out each operation step by step, proved to agree with them. */
module Name {
  import opened Strings
  import opened Namepath
  import opened Doclets

  /** A syntax-tree node as the resolver sees it: an identity, the parent
      node, whether the node is an object literal, the nearest enclosing
      function and the node's own name (absent when it has none). */
  datatype Node = Node(id: nat, parent: Option<Node>, isObjectLiteral: bool,
                       enclosingFunction: Option<Node>, name: Option<string>)

  // ---------------------------------------------------------------------
  // Normalising a raw name
  // ---------------------------------------------------------------------

  /** `s.split(/\s+/g)[0]`: the text before the first white-space
      character. */
  function FirstWord(s: string): (w: string)
    ensures StartsWith(s, w)
    ensures forall k :: 0 <= k < |w| ==> !IsWhitespace(w[k])
    ensures |w| == |s| || IsWhitespace(s[|w|])
  {
    if s == [] || IsWhitespace(s[0]) then "" else [s[0]] + FirstWord(s[1..])
  }

  /** `name.replace(/^exports\.(?=.+$)/, module + '.')`: a leading
      `exports.` followed by at least one more character, none of them a
      line terminator, is replaced by the module name and a dot. */
  function RewriteExports(name: string, moduleName: string): string {
    if StartsWith(name, "exports.") && |name| > 8 && forall k :: 8 <= k < |name| ==> !IsLineTerminator(name[k])
    then moduleName + "." + name[8..]
    else name
  }

  /** `name.replace(/\.prototype\.?/g, '#')`: every `.prototype`, with the
      dot after it when there is one, becomes `#`, scanning left to
      right. */
  function ReplacePrototype(s: string): string
    decreases |s|
  {
    if s == [] then []
    else if StartsWith(s, ".prototype.") then "#" + ReplacePrototype(s[11..])
    else if StartsWith(s, ".prototype") then "#" + ReplacePrototype(s[10..])
    else [s[0]] + ReplacePrototype(s[1..])
  }

  /** The name as `resolve` sees it before splitting: the first word of
      the tag, with `exports.` rewritten when a module is current and
      `.prototype` turned into `#`. */
  function Normalize(raw: string, currentModule: string): string {
    var w := FirstWord(raw);
    ReplacePrototype(if currentModule != "" then RewriteExports(w, currentModule) else w)
  }

  // ---------------------------------------------------------------------
  // Splitting the name and composing the path
  // ---------------------------------------------------------------------

  /** The character class `[a-z_$-]` under the `i` flag. */
  predicate IsSchemeChar(c: char) {
    ('a' <= c <= 'z') || ('A' <= c <= 'Z') || c == '_' || c == '$' || c == '-'
  }

  /** The length of the longest prefix of scheme characters. */
  function SchemeLength(s: string): (n: nat)
    ensures n <= |s|
    ensures forall k :: 0 <= k < n ==> IsSchemeChar(s[k])
    ensures n == |s| || !IsSchemeChar(s[n])
  {
    if s == [] || !IsSchemeChar(s[0]) then 0 else 1 + SchemeLength(s[1..])
  }

  /** `if (/^[a-z_$-]+:(\S+)/i.test(name)) name = RegExp.$1`: a leading
      `scheme:` is dropped, together with everything from the first white
      space after it. */
  function StripScheme(name: string): string {
    var j := SchemeLength(name);
    if 1 <= j && j + 1 < |name| && name[j] == ':' && !IsWhitespace(name[j + 1])
    then FirstWord(name[j + 1..])
    else name
  }

  /** `/^(.+?)(~)?$/` applied to a container: a trailing `~` after at least
      one character marks an inner symbol and is cut off. */
  function InnerSplit(container: string): (string, bool) {
    if |container| >= 2 && container[|container| - 1] == '~'
    then (container[..|container| - 1], true)
    else (container, false)
  }

  /** The joiner between an explicit container and the name in a path: no
      dot after a trailing `#` or `~`. */
  function PathJoiner(memberof: string): string {
    if memberof != "" && (memberof[|memberof| - 1] == '#' || memberof[|memberof| - 1] == '~') then "" else "."
  }

  /** The kinds whose doclets live in a doc-namespace
      (`tagDictionary.lookUp(isa).setsDocletDocspace`); a doclet without
      a kind has none. */
  predicate SetsDocspace(isa: Option<string>, kinds: set<string>) {
    isa.Some? && isa.value in kinds
  }

  /** After splitting: the container used to build the path, the name,
      the `memberof` tag to write (if any) and whether the symbol is
      inner. */
  datatype Split = Split(memberof: string, name: string, memberofTag: Option<string>, inner: bool)

  function SplitName(name: string, memberof: string, isa: Option<string>): Split {
    if memberof != "" then
      Split(memberof, if StartsWith(name, memberof) then Shorten(name).1 else name, None, false)
    else if isa != Some("file") then
      var container := Shorten(name).0;
      if container != "" then
        Split(container, Shorten(name).1, Some(InnerSplit(container).0), InnerSplit(container).1)
      else
        Split("", Shorten(name).1, None, false)
    else
      Split("", name, None, false)
  }

  /** What `resolve` does to a doclet: the `memberof` tag it writes (if
      any), whether it adds access `inner`, the name it writes (when not
      empty) and the path it writes (when not empty) and returns. */
  datatype Outcome = Outcome(memberofTag: Option<string>, inner: bool, name: string, path: string)

  function Resolution(tags: map<string, string>, currentModule: string, kinds: set<string>): Outcome {
    var isa := TagValue(tags, "isa");
    var full := Normalize(TagOr(tags, "name"), currentModule);
    Compose(full, SplitName(full, TagOr(tags, "memberof"), isa), isa, kinds)
  }

  /** The name and path once the name is split: a doc-namespace kind
      drops a `scheme:` from the name and puts `isa:` into the path; the
      path joins the container and the name unless the name already
      starts with the container, and is the whole normalised name when
      neither applies. */
  function Compose(full: string, s: Split, isa: Option<string>, kinds: set<string>): Outcome {
    var docspace := SetsDocspace(isa, kinds);
    var name := if docspace then StripScheme(s.name) else s.name;
    var ns := if docspace then isa.value + ":" else "";
    var path :=
      if s.memberof != "" && !StartsWith(name, s.memberof) then s.memberof + PathJoiner(s.memberof) + ns + name
      else if ns != "" then ns + name
      else full;
    Outcome(s.memberofTag, s.inner, name, path)
  }

  /** The tags after `resolve`: `memberof`, then `name`, then `path`. */
  function Written(tags: map<string, string>, o: Outcome): map<string, string> {
    var t := if o.memberofTag.Some? then tags["memberof" := o.memberofTag.value] else tags;
    var u := if o.name != "" then t["name" := o.name] else t;
    if o.path != "" then u["path" := o.path] else u
  }

  // ---------------------------------------------------------------------
  // `this.` names and inner names
  // ---------------------------------------------------------------------

  /** `m.split(/[#~.]/).pop()`: the text after the last separator. */
  function LastPart(m: string): (r: string)
    ensures |r| <= |m| && m[|m| - |r|..] == r
    ensures forall k :: 0 <= k < |r| ==> !IsSeparator(r[k])
    ensures |r| == |m| || IsSeparator(m[|m| - |r| - 1])
  {
    if m == [] || IsSeparator(m[|m| - 1]) then [] else LastPart(m[..|m| - 1]) + [m[|m| - 1]]
  }

  /** `m.slice(0, -suffix.length)` with `suffix` the last part: an empty
      last part gives `slice(0, -0)`, the empty string. */
  function DropSuffix(m: string): string {
    var k := |LastPart(m)|;
    if k == 0 then "" else m[..|m| - k]
  }

  /** The joiner `resolveThis` puts after a function's container. */
  function ThisJoiner(m: string): string {
    if m == "" || IsSeparator(m[|m| - 1]) then "" else "#"
  }

  /** The joiner `resolveThis` puts after an object literal's path. */
  function ObjectJoiner(m: string): string {
    if m != "" && m[|m| - 1] == '#' then "" else "."
  }

  /** The object literal branch: the name is qualified by the literal's
      path, its `path` property, or `[[anonymousObject]]`. */
  function ObjectMember(name: string, d: DocState): string {
    var tagged := ReplacePrototype(TagOr(d.tags, "path"));
    var m := if tagged != "" then tagged else if d.path != "" then d.path else "[[anonymousObject]]";
    m + ObjectJoiner(m) + name
  }

  /** The `this.` branch when no explicit container is given: `rest` is
      the name without `this.`, `enclosing` whether there is an enclosing
      function, `doc` the state of its doclet. */
  function ThisMember(rest: string, enclosing: bool, doc: Option<DocState>): string {
    var m := match doc
      case None => ""
      case Some(d) => if d.inner then "" else TagOr(d.tags, "path");
    if enclosing && m == "" then rest
    else
      var c := if enclosing then m else "";
      var c' := if doc.Some? && TagValue(doc.value.tags, "isa") != Some("constructor") then DropSuffix(c) else c;
      c' + ThisJoiner(c') + rest
  }

  /** `resolveThis(name, node, doclet)`, given the `memberof` tag of the
      doclet and the states of the doclets registered for the node's
      parent and for its enclosing function. */
  function ThisName(name: string, node: Node, memberofTag: string,
                    objectDoc: Option<DocState>, functionDoc: Option<DocState>): string
  {
    if node.parent.Some? && node.parent.value.isObjectLiteral then
      if objectDoc.Some? then ObjectMember(name, objectDoc.value) else name
    else if StartsWith(name, "this.") then
      var memberof := ReplacePrototype(memberofTag);
      if memberof == "" || memberof == "this" then ThisMember(name[5..], node.enclosingFunction.Some?, functionDoc)
      else name[5..]
    else name
  }

  /** `resolveInner(name, node)`, given the state of the doclet registered
      for the enclosing function. */
  function InnerName(name: string, node: Node, functionDoc: Option<DocState>): string {
    var memberof := match functionDoc
      case Some(d) => TagOr(d.tags, "path")
      case None =>
        if node.enclosingFunction.Some? && node.enclosingFunction.value.name == Some("") then "[[anonymous]]" else "";
    if memberof != "" then memberof + "~" + name else name
  }

  // ---------------------------------------------------------------------
  // The registry
  // ---------------------------------------------------------------------

  /** The doclet of the most recent registry entry for the node `id`. */
  function Find(refs: seq<(nat, Doclet)>, id: nat): Option<Doclet> {
    if refs == [] then None
    else if refs[|refs| - 1].0 == id then Some(refs[|refs| - 1].1)
    else Find(refs[..|refs| - 1], id)
  }

  function StateOf(d: Option<Doclet>): Option<DocState>
    reads if d.Some? then {d.value} else {}
  {
    if d.Some? then Some(d.value.State()) else None
  }

  /** The module state of `jsdoc/name`: the current module name and the
      registry of documented nodes (`refs`), with the kinds the tag
      dictionary gives a doc-namespace. */
  class Resolver {
    var currentModule: string
    var refs: seq<(nat, Doclet)>
    const kinds: set<string>

    constructor (kinds: set<string>)
      ensures currentModule == "" && refs == [] && this.kinds == kinds
    {
      currentModule := "";
      refs := [];
      this.kinds := kinds;
    }

    /** `setCurrentModule(moduleName)` */
    method SetCurrentModule(moduleName: string)
      modifies this`currentModule
      ensures currentModule == moduleName
    {
      currentModule := moduleName;
    }

    /** A driver's `refs.push([node, doclet])`. */
    method Register(node: Node, doclet: Doclet)
      modifies this`refs
      ensures refs == old(refs) + [(node.id, doclet)]
    {
      refs := refs + [(node.id, doclet)];
    }

    /** The doclet registered most recently for a node; none for an
        absent node. */
    function Lookup(node: Option<Node>): Option<Doclet>
      reads this
    {
      if node.Some? then Find(refs, node.value.id) else None
    }

    /** `docFromNode(node)`: scans the registry from its end. */
    method DocFromNode(node: Option<Node>) returns (d: Option<Doclet>)
      ensures d == Lookup(node)
    {
      var i := |refs|;
      assert refs[..i] == refs;
      while i > 0
        invariant 0 <= i <= |refs|
        invariant Lookup(node) == if node.Some? then Find(refs[..i], node.value.id) else None
      {
        i := i - 1;
        if node.Some? && refs[i].0 == node.value.id {
          return Some(refs[i].1);
        }
        assert refs[..i + 1][..i] == refs[..i];
      }
      return None;
    }

    /** `resolve(doclet)`: writes the doclet's `memberof`, `name` and `path`
        tags and its `inner` access, and returns the path. */
    method Resolve(doclet: Doclet) returns (path: string)
      modifies doclet`tags, doclet`access
      ensures var o := Resolution(old(doclet.tags), currentModule, kinds);
              path == o.path &&
              doclet.tags == Written(old(doclet.tags), o) &&
              doclet.access == old(doclet.access) + (if o.inner then ["inner"] else [])
      ensures Resolution(old(doclet.tags), currentModule, kinds).inner ==> doclet.IsInner()
    {
      ghost var tags := doclet.tags;
      var isa := TagValue(doclet.tags, "isa");
      var ns := "";
      var name := TagOr(doclet.tags, "name");
      var memberof := TagOr(doclet.tags, "memberof");
      name := FirstWord(name);
      if currentModule != "" {
        name := RewriteExports(name, currentModule);
      }
      name := ReplacePrototype(name);
      ghost var full := name;
      ghost var s := SplitName(full, memberof, isa);
      ghost var o := Compose(full, s, isa, kinds);
      assert Resolution(tags, currentModule, kinds) == o;
      path := name;
      memberof, name := SplitTags(doclet, name, memberof, isa);
      if SetsDocspace(isa, kinds) {
        name := StripScheme(name);
        ns := isa.value + ":";
      }
      if name != "" {
        doclet.SetTag("name", name);
      }
      if memberof != "" && !StartsWith(name, memberof) {
        path := memberof + PathJoiner(memberof) + ns + name;
      } else if ns != "" {
        path := ns + name;
      }
      if path != "" {
        doclet.SetTag("path", path);
      }
      assert path == o.path;
    }

    /** The splitting part of `resolve`: with an explicit container the
        name is shortened only when it starts with that container; without
        one (and unless the doclet documents a file) the container comes
        from shortening the name, its trailing `~` is cut off in the
        `memberof` tag and marks the doclet inner. */
    static method SplitTags(doclet: Doclet, name: string, memberof: string, isa: Option<string>)
      returns (container: string, short: string)
      modifies doclet`tags, doclet`access
      ensures var s := SplitName(name, memberof, isa);
              container == s.memberof && short == s.name &&
              doclet.tags == (if s.memberofTag.Some? then old(doclet.tags)["memberof" := s.memberofTag.value] else old(doclet.tags)) &&
              doclet.access == old(doclet.access) + (if s.inner then ["inner"] else [])
    {
      container, short := memberof, name;
      if memberof != "" {
        if StartsWith(name, memberof) {
          var prefix;
          prefix, short := ShortenMasking(name);
        }
      } else if isa != Some("file") {
        container, short := ShortenMasking(name);
        if container != "" {
          var (tagged, inner) := InnerSplit(container);
          doclet.SetTag("memberof", tagged);
          if inner {
            doclet.AddAccess("inner");
          }
        }
      }
    }

    /** `resolveThis(name, node, doclet)` */
    method ResolveThis(name: string, node: Node, doclet: Doclet) returns (r: string)
      ensures r == ThisName(name, node, TagOr(doclet.tags, "memberof"),
                            StateOf(Lookup(node.parent)), StateOf(Lookup(node.enclosingFunction)))
    {
      var memberof := ReplacePrototype(TagOr(doclet.tags, "memberof"));
      r := name;
      if node.parent.Some? && node.parent.value.isObjectLiteral {
        var enclosingDoc := DocFromNode(node.parent);
        if enclosingDoc.Some? {
          var d := enclosingDoc.value;
          memberof := ReplacePrototype(TagOr(d.tags, "path"));
          if memberof == "" {
            memberof := d.path;
            if memberof == "" {
              memberof := "[[anonymousObject]]";
            }
          }
          r := memberof + ObjectJoiner(memberof) + r;
        }
      } else if StartsWith(name, "this.") {
        if memberof == "" || memberof == "this" {
          var enclosing := node.enclosingFunction;
          var enclosingDoc := DocFromNode(enclosing);
          if enclosingDoc.Some? {
            memberof := if enclosingDoc.value.IsInner() then "" else TagOr(enclosingDoc.value.tags, "path");
          } else {
            memberof := "";
          }
          if enclosing.Some? && memberof == "" {
            r := r[5..];
          } else if enclosing.None? {
            memberof := "";
          }
          if memberof != "" || enclosing.None? {
            if enclosingDoc.Some? && TagValue(enclosingDoc.value.tags, "isa") != Some("constructor") {
              memberof := DropSuffix(memberof);
            }
            r := memberof + ThisJoiner(memberof) + r[5..];
          }
        } else {
          r := r[5..];
        }
      }
    }

    /** `resolveInner(name, node)` */
    method ResolveInner(name: string, node: Node) returns (r: string)
      ensures r == InnerName(name, node, StateOf(Lookup(node.enclosingFunction)))
    {
      var enclosing := node.enclosingFunction;
      var enclosingDoc := DocFromNode(enclosing);
      var memberof;
      if enclosingDoc.Some? {
        memberof := TagOr(enclosingDoc.value.tags, "path");
      } else {
        memberof := if enclosing.Some? && enclosing.value.name == Some("") then "[[anonymous]]" else "";
      }
      r := name;
      if memberof != "" {
        r := memberof + "~" + r;
      }
    }
  }
}
