/** What `jsdoc/name` promises about names, containers and paths, proved
    about the specification functions of module `Name`. */
module NameProperties {
  import opened Strings
  import opened Namepath
  import opened Doclets
  import opened Name

  // ---------------------------------------------------------------------
  // Normalisation
  // ---------------------------------------------------------------------

  /** A word without white space is its own first word. */
  lemma FirstWordOfWord(s: string)
    requires forall k :: 0 <= k < |s| ==> !IsWhitespace(s[k])
    ensures FirstWord(s) == s
  {
  }

  /** Identifier characters are neither white space, quotes, separators
      nor colons. */
  lemma IdentifierChars(s: string)
    requires IsIdentifier(s)
    ensures forall k :: 0 <= k < |s| ==>
              !IsWhitespace(s[k]) && s[k] != '"' && !IsSeparator(s[k]) && s[k] != ':'
  {
  }

  /** A name with no dot cannot start with `exports.`. */
  lemma NoDotNoExports(s: string)
    requires forall k :: 0 <= k < |s| ==> s[k] != '.'
    ensures !StartsWith(s, "exports.")
  {
    if |s| >= 8 {
      assert s[..8][7] == s[7];
    }
  }

  /** An identifier other than `exports`, followed by a dot, does not
      start with `exports.`. */
  lemma NotExports(a: string, rest: string)
    requires IsIdentifier(a) && a != "exports"
    requires rest != [] && rest[0] == '.'
    ensures !StartsWith(a + rest, "exports.")
  {
    var s := a + rest;
    if |a| >= 8 {
      assert s[..8][7] == a[7];
    } else if |a| == 7 {
      assert s[..8][..7] == a;
    } else if |s| >= 8 {
      assert s[..8][|a|] == rest[0];
    }
  }

  /** Normalising a name without white space that is not an `exports.`
      name (or with no current module) only replaces `.prototype`. */
  lemma NormalizeWord(s: string, currentModule: string)
    requires forall k :: 0 <= k < |s| ==> !IsWhitespace(s[k])
    requires currentModule == "" || !StartsWith(s, "exports.")
    ensures Normalize(s, currentModule) == ReplacePrototype(s)
  {
    FirstWordOfWord(s);
  }

  /** Text not starting with a dot does not start a `.prototype` match. */
  lemma NoMatchAt(s: string)
    requires s != [] && s[0] != '.'
    ensures !StartsWith(s, ".prototype") && !StartsWith(s, ".prototype.")
  {
  }

  /** A name without a dot holds no `.prototype`. */
  lemma {:induction false} ReplacePrototypeNoDot(s: string)
    requires forall k :: 0 <= k < |s| ==> s[k] != '.'
    ensures ReplacePrototype(s) == s
  {
    if s != [] {
      NoMatchAt(s);
      ReplacePrototypeNoDot(s[1..]);
      assert [s[0]] + s[1..] == s;
    }
  }

  /** `a.prototype.b` becomes `a#b`. */
  lemma {:induction false} ReplacePrototypeMember(a: string, b: string)
    requires forall k :: 0 <= k < |a| ==> a[k] != '.'
    requires forall k :: 0 <= k < |b| ==> b[k] != '.'
    ensures ReplacePrototype(a + ".prototype." + b) == a + "#" + b
  {
    if a == [] {
      assert a + ".prototype." + b == ".prototype." + b;
      ReplaceStepMember(b);
      ReplacePrototypeNoDot(b);
    } else {
      ConsSplit(a, ".prototype.", b);
      ReplaceStepCons(a[0], a[1..] + ".prototype." + b);
      ReplacePrototypeMember(a[1..], b);
      ConsSplit(a, "#", b);
    }
  }

  /** `a.b` is left alone when `b` does not start with `prototype`. */
  lemma {:induction false} ReplacePrototypeDot(a: string, b: string)
    requires forall k :: 0 <= k < |a| ==> a[k] != '.'
    requires forall k :: 0 <= k < |b| ==> b[k] != '.'
    requires !StartsWith(b, "prototype")
    ensures ReplacePrototype(a + "." + b) == a + "." + b
  {
    if a == [] {
      assert a + "." + b == "." + b;
      ReplaceStepDot(b);
      ReplacePrototypeNoDot(b);
    } else {
      ConsSplit(a, ".", b);
      ReplaceStepCons(a[0], a[1..] + "." + b);
      ReplacePrototypeDot(a[1..], b);
    }
  }

  /** A character other than a dot is copied. */
  lemma ReplaceStepCons(c: char, t: string)
    requires c != '.'
    ensures ReplacePrototype([c] + t) == [c] + ReplacePrototype(t)
  {
  }

  /** `a + x + y` is the first character of `a` before the rest. */
  lemma ConsSplit(a: string, x: string, y: string)
    requires a != []
    ensures a + x + y == [a[0]] + (a[1..] + x + y)
  {
  }

  /** `.prototype.` becomes `#`. */
  lemma ReplaceStepMember(b: string)
    ensures ReplacePrototype(".prototype." + b) == "#" + ReplacePrototype(b)
  {
  }

  /** A dot before text not starting with `prototype` is copied. */
  lemma ReplaceStepDot(b: string)
    requires !StartsWith(b, "prototype")
    ensures ReplacePrototype("." + b) == "." + ReplacePrototype(b)
  {
    DotNoMatch(b);
    assert ("." + b)[1..] == b;
  }

  /** A dot before text not starting with `prototype` starts no match. */
  lemma DotNoMatch(b: string)
    requires !StartsWith(b, "prototype")
    ensures !StartsWith("." + b, ".prototype") && !StartsWith("." + b, ".prototype.")
  {
    var s := "." + b;
    if |s| >= 10 {
      assert s[..10][1..] == b[..9];
    }
    if |s| >= 11 {
      assert s[..11][1..10] == b[..9];
    }
  }


  /** Where the result starts with text that has no `.` and no `#`, the
      input starts with that same text. */
  lemma {:induction false} ReplacePrototypePrefix(t: string, w: string)
    requires forall i :: 0 <= i < |w| ==> w[i] != '.' && w[i] != '#'
    ensures StartsWith(ReplacePrototype(t), w) ==> StartsWith(t, w)
    decreases |t|
  {
    var r := ReplacePrototype(t);
    if w != [] && StartsWith(r, w) {
      assert r[0] == w[0];
      assert r == [t[0]] + ReplacePrototype(t[1..]);
      assert ReplacePrototype(t[1..])[..|w| - 1] == r[..|w|][1..];
      ReplacePrototypePrefix(t[1..], w[1..]);
      assert t[..|w|] == [t[0]] + t[1..][..|w| - 1];
    }
  }

  /** No `.prototype` survives the replacement. */
  lemma {:induction false} NoPrototypeLeft(s: string)
    ensures forall k :: 0 <= k <= |ReplacePrototype(s)| ==> !StartsWith(ReplacePrototype(s)[k..], ".prototype")
    decreases |s|
  {
    if s != [] {
      var n := if StartsWith(s, ".prototype.") then 11 else if StartsWith(s, ".prototype") then 10 else 1;
      var h := if n == 1 then [s[0]] else "#";
      var rest := ReplacePrototype(s[n..]);
      NoPrototypeLeft(s[n..]);
      assert ReplacePrototype(s) == h + rest;
      if h[0] == '.' {
        DotHead(s);
      } else {
        NoMatchAt(h + rest);
      }
      NoMatchPrepend(h, rest);
    }
  }

  /** A dot that does not start `.prototype` does not start one after the
      replacement either. */
  lemma DotHead(s: string)
    requires s != [] && s[0] == '.' && !StartsWith(s, ".prototype")
    ensures !StartsWith([s[0]] + ReplacePrototype(s[1..]), ".prototype")
  {
    var t := ReplacePrototype(s[1..]);
    var r := [s[0]] + t;
    assert |r| >= 10 ==> r[..10][1..] == t[..9];
    assert StartsWith(r, ".prototype") ==> StartsWith(t, "prototype");
    ReplacePrototypePrefix(s[1..], "prototype");
    assert |s| >= 10 ==> s[..10] == [s[0]] + s[1..][..9];
    assert StartsWith(s[1..], "prototype") ==> StartsWith(s, ".prototype");
  }

  /** One character that starts no `.prototype`, before text that holds
      none, gives text that holds none. */
  lemma NoMatchPrepend(h: string, rest: string)
    requires |h| == 1 && !StartsWith(h + rest, ".prototype")
    requires forall k :: 0 <= k <= |rest| ==> !StartsWith(rest[k..], ".prototype")
    ensures forall k :: 0 <= k <= |h + rest| ==> !StartsWith((h + rest)[k..], ".prototype")
  {
    forall k | 0 <= k <= |h + rest| ensures !StartsWith((h + rest)[k..], ".prototype") {
      if k >= 1 {
        assert (h + rest)[k..] == rest[k - 1..];
      } else {
        assert (h + rest)[k..] == h + rest;
      }
    }
  }

  /** A name without `.prototype` is left alone. */
  lemma {:induction false} ReplacePrototypeFixed(s: string)
    requires forall k :: 0 <= k <= |s| ==> !StartsWith(s[k..], ".prototype")
    ensures ReplacePrototype(s) == s
    decreases |s|
  {
    if s != [] {
      assert s[0..] == s;
      assert |s| >= 11 ==> s[..11][..10] == s[..10];
      forall k | 0 <= k <= |s| - 1 ensures !StartsWith(s[1..][k..], ".prototype") {
        assert s[1..][k..] == s[k + 1..];
      }
      ReplacePrototypeFixed(s[1..]);
      assert [s[0]] + s[1..] == s;
    }
  }

  /** Replacing `.prototype` twice is the same as once. */
  lemma ReplacePrototypeIdempotent(s: string)
    ensures ReplacePrototype(ReplacePrototype(s)) == ReplacePrototype(s)
  {
    NoPrototypeLeft(s);
    ReplacePrototypeFixed(ReplacePrototype(s));
  }

  // ---------------------------------------------------------------------
  // resolve
  // ---------------------------------------------------------------------

  /** `Resolution` is its three stages in a row. */
  lemma ResolutionStages(tags: map<string, string>, currentModule: string, kinds: set<string>,
                         full: string, s: Split)
    requires Normalize(TagOr(tags, "name"), currentModule) == full
    requires SplitName(full, TagOr(tags, "memberof"), TagValue(tags, "isa")) == s
    ensures Resolution(tags, currentModule, kinds) == Compose(full, s, TagValue(tags, "isa"), kinds)
  {
  }

  /** Without a `memberof` tag, the container of a shortened name becomes
      the `memberof` tag, less a trailing `~`. */
  lemma SplitContainer(full: string, isa: Option<string>, c: string, b: string)
    requires isa != Some("file") && Shorten(full) == (c, b) && c != ""
    ensures SplitName(full, "", isa) == Split(c, b, Some(InnerSplit(c).0), InnerSplit(c).1)
  {
  }

  /** Outside a doc-namespace, a name that does not start with its
      container is joined to it. */
  lemma ComposeJoined(full: string, s: Split, isa: Option<string>, kinds: set<string>, path: string)
    requires !SetsDocspace(isa, kinds) && s.memberof != "" && !StartsWith(s.name, s.memberof)
    requires path == s.memberof + PathJoiner(s.memberof) + s.name
    ensures Compose(full, s, isa, kinds) == Outcome(s.memberofTag, s.inner, s.name, path)
  {
  }

  /** `Foo.prototype.bar` without a `memberof` tag: name `bar`, container
      `Foo#`, path `Foo#bar`. */
  lemma ResolvePrototypeMember(tags: map<string, string>, currentModule: string, kinds: set<string>,
                               a: string, b: string)
    requires TagValue(tags, "name") == Some(a + ".prototype." + b) && "memberof" !in tags
    requires TagValue(tags, "isa") != Some("file") && !SetsDocspace(TagValue(tags, "isa"), kinds)
    requires IsIdentifier(a) && a != "exports" && IsIdentifier(b) && b != ""
    ensures Resolution(tags, currentModule, kinds) == Outcome(Some(a + "#"), false, b, a + "#" + b)
  {
    var isa := TagValue(tags, "isa");
    var s := Split(a + "#", b, Some(a + "#"), false);
    NormalizePrototypeMember(a, b, currentModule);
    SplitJoined(a, '#', b, isa);
    InnerSplitPlain(a + "#");
    ComposeJoinedIdentifiers(a, '#', b, s, isa, kinds);
    ResolutionStages(tags, currentModule, kinds, a + "#" + b, s);
  }

  /** `a.prototype.b` normalises to `a#b`. */
  lemma NormalizePrototypeMember(a: string, b: string, currentModule: string)
    requires IsIdentifier(a) && a != "exports" && IsIdentifier(b)
    ensures Normalize(a + ".prototype." + b, currentModule) == a + "#" + b
  {
    var raw := a + ".prototype." + b;
    IdentifierChars(a);
    IdentifierChars(b);
    NoWhitespaceConcat(a + ".prototype.", b);
    NotExports(a, ".prototype." + b);
    assert raw == a + (".prototype." + b);
    NormalizeWord(raw, currentModule);
    ReplacePrototypeMember(a, b);
  }

  /** Text without white space, followed by more, has none either. */
  lemma NoWhitespaceConcat(x: string, y: string)
    requires forall k :: 0 <= k < |x| ==> !IsWhitespace(x[k])
    requires forall k :: 0 <= k < |y| ==> !IsWhitespace(y[k])
    ensures forall k :: 0 <= k < |x + y| ==> !IsWhitespace((x + y)[k])
  {
  }

  /** A container that does not end in `~` is not inner. */
  lemma InnerSplitPlain(c: string)
    requires c == "" || c[|c| - 1] != '~'
    ensures InnerSplit(c) == (c, false)
  {
  }

  /** `a~b` without a `memberof` tag: the `memberof` tag is `a` (the `~`
      cut off), the doclet is inner, and the path keeps the `~` join. */
  lemma ResolveInnerMember(tags: map<string, string>, currentModule: string, kinds: set<string>,
                           a: string, b: string)
    requires TagValue(tags, "name") == Some(a + "~" + b) && "memberof" !in tags
    requires TagValue(tags, "isa") != Some("file") && !SetsDocspace(TagValue(tags, "isa"), kinds)
    requires IsIdentifier(a) && a != "" && IsIdentifier(b) && b != ""
    ensures Resolution(tags, currentModule, kinds) == Outcome(Some(a), true, b, a + "~" + b)
  {
    var raw := a + "~" + b;
    var isa := TagValue(tags, "isa");
    var s := Split(a + "~", b, Some(a), true);
    NormalizeJoined(a, '~', b, currentModule);
    SplitJoined(a, '~', b, isa);
    InnerSplitTilde(a);
    ComposeJoinedIdentifiers(a, '~', b, s, isa, kinds);
    ResolutionStages(tags, currentModule, kinds, raw, s);
  }

  /** Normalising two identifiers joined by `#` or `~` changes nothing. */
  lemma NormalizeJoined(a: string, sep: char, b: string, currentModule: string)
    requires IsIdentifier(a) && IsIdentifier(b) && (sep == '#' || sep == '~')
    ensures Normalize(a + [sep] + b, currentModule) == a + [sep] + b
  {
    JoinedChars(a, sep, b);
    NormalizeNoDot(a + [sep] + b, currentModule);
  }

  /** Without a `memberof` tag, two identifiers joined by a separator split
      into the container and the second identifier. */
  lemma SplitJoined(a: string, sep: char, b: string, isa: Option<string>)
    requires IsIdentifier(a) && IsIdentifier(b) && IsSeparator(sep) && isa != Some("file")
    requires a + Kept(sep) != ""
    ensures var c := a + Kept(sep);
            SplitName(a + [sep] + b, "", isa) == Split(c, b, Some(InnerSplit(c).0), InnerSplit(c).1)
  {
    ShortenIdentifiers(a, sep, b);
    SplitContainer(a + [sep] + b, isa, a + Kept(sep), b);
  }

  /** A container ending in `~` after at least one character is inner. */
  lemma InnerSplitTilde(a: string)
    requires a != ""
    ensures InnerSplit(a + "~") == (a, true)
  {
  }

  /** Outside a doc-namespace, the container `a#` or `a~` and the short
      name `b` are joined back into `a#b` or `a~b`. */
  lemma ComposeJoinedIdentifiers(a: string, sep: char, b: string, s: Split, isa: Option<string>, kinds: set<string>)
    requires IsIdentifier(b) && (sep == '#' || sep == '~') && !SetsDocspace(isa, kinds)
    requires s.memberof == a + [sep] && s.name == b
    ensures Compose(a + [sep] + b, s, isa, kinds) == Outcome(s.memberofTag, s.inner, b, a + [sep] + b)
  {
  }

  /** The characters of `a`, a `#` or `~`, and `b`, for identifiers `a`
      and `b`, are neither white space nor dots. */
  lemma JoinedChars(a: string, sep: char, b: string)
    requires IsIdentifier(a) && IsIdentifier(b) && (sep == '#' || sep == '~')
    ensures forall k :: 0 <= k < |a + [sep] + b| ==> !IsWhitespace((a + [sep] + b)[k]) && (a + [sep] + b)[k] != '.'
  {
  }

  /** Normalising a name without white space or dots changes nothing. */
  lemma NormalizeNoDot(raw: string, currentModule: string)
    requires forall k :: 0 <= k < |raw| ==> !IsWhitespace(raw[k]) && raw[k] != '.'
    ensures Normalize(raw, currentModule) == raw
  {
    NoDotNoExports(raw);
    NormalizeWord(raw, currentModule);
    ReplacePrototypeNoDot(raw);
  }

  /** Two identifiers joined by a separator split back into the first
      (with `#` or `~` kept) and the second. */
  lemma ShortenIdentifiers(a: string, sep: char, b: string)
    requires IsIdentifier(a) && IsIdentifier(b) && IsSeparator(sep)
    ensures Shorten(a + [sep] + b) == (a + Kept(sep), b)
  {
    IdentifierChars(a);
    IdentifierChars(b);
    PlainNameIsAtomic(b);
    ShortenJoin(a, sep, b);
  }

  /** With a current module, `exports.create` is rewritten into the
      module: container `widgets`, name `create`, path `widgets.create`. */
  lemma ResolveExports(tags: map<string, string>, currentModule: string, kinds: set<string>, b: string)
    requires TagValue(tags, "name") == Some("exports." + b) && "memberof" !in tags
    requires TagValue(tags, "isa") != Some("file") && !SetsDocspace(TagValue(tags, "isa"), kinds)
    requires IsIdentifier(currentModule) && currentModule != ""
    requires IsIdentifier(b) && b != "" && !StartsWith(b, "prototype")
    ensures Resolution(tags, currentModule, kinds) ==
            Outcome(Some(currentModule), false, b, currentModule + "." + b)
  {
    var m := currentModule;
    var isa := TagValue(tags, "isa");
    var s := Split(m, b, Some(m), false);
    NormalizeExports(m, b);
    SplitJoined(m, '.', b, isa);
    assert m + Kept('.') == m;
    IdentifierChars(m);
    InnerSplitPlain(m);
    ComposeDot(m, b, s, isa, kinds);
    ResolutionStages(tags, currentModule, kinds, m + "." + b, s);
  }

  /** `exports.b` normalises to `m.b` in module `m`. */
  lemma NormalizeExports(m: string, b: string)
    requires IsIdentifier(m) && m != "" && IsIdentifier(b) && b != "" && !StartsWith(b, "prototype")
    ensures Normalize("exports." + b, m) == m + "." + b
  {
    var raw := "exports." + b;
    IdentifierChars(m);
    IdentifierChars(b);
    assert raw[..8] == "exports." && raw[8..] == b;
    forall k | 0 <= k < |raw| ensures !IsWhitespace(raw[k]) && (k >= 8 ==> !IsLineTerminator(raw[k])) {
      if k >= 8 { assert raw[k] == b[k - 8]; }
    }
    FirstWordOfWord(raw);
    assert RewriteExports(raw, m) == m + "." + b;
    ReplacePrototypeDot(m, b);
  }

  /** Outside a doc-namespace, an identifier container `m` and the short
      name `b` give the path `m.b`: joined with a dot when `b` does not
      start with `m`, and the whole name `m.b` when it does. */
  lemma ComposeDot(m: string, b: string, s: Split, isa: Option<string>, kinds: set<string>)
    requires IsIdentifier(m) && m != "" && !SetsDocspace(isa, kinds)
    requires s.memberof == m && s.name == b
    ensures Compose(m + "." + b, s, isa, kinds) == Outcome(s.memberofTag, s.inner, b, m + "." + b)
  {
  }

  /** A doclet of kind `file` keeps its whole name: nothing is split off,
      no `memberof` tag is written, and the path is the normalised name. */
  lemma ResolveFileKeepsWholeName(tags: map<string, string>, currentModule: string, kinds: set<string>)
    requires TagValue(tags, "isa") == Some("file") && "file" !in kinds
    requires TagOr(tags, "memberof") == ""
    ensures var full := Normalize(TagOr(tags, "name"), currentModule);
            Resolution(tags, currentModule, kinds) == Outcome(None, false, full, full)
  {
  }

  /** An explicit `memberof` tag is never rewritten and never makes the
      doclet inner. */
  lemma ExplicitMemberofKept(tags: map<string, string>, currentModule: string, kinds: set<string>)
    requires TagOr(tags, "memberof") != ""
    ensures Resolution(tags, currentModule, kinds).memberofTag.None?
    ensures !Resolution(tags, currentModule, kinds).inner
    ensures Written(tags, Resolution(tags, currentModule, kinds))["memberof"] == tags["memberof"]
  {
  }

  /** `@name bar` with `@memberof Foo`: path `Foo.bar`, and no dot after a
      container ending in `#` or `~`. */
  lemma ResolveUnderMemberof(tags: map<string, string>, currentModule: string, kinds: set<string>,
                             m: string, b: string)
    requires TagValue(tags, "name") == Some(b) && TagValue(tags, "memberof") == Some(m) && m != ""
    requires !SetsDocspace(TagValue(tags, "isa"), kinds)
    requires IsIdentifier(b) && b != "" && !StartsWith(b, m)
    ensures var joiner := if m[|m| - 1] == '#' || m[|m| - 1] == '~' then "" else ".";
            Resolution(tags, currentModule, kinds) == Outcome(None, false, b, m + joiner + b)
  {
    var isa := TagValue(tags, "isa");
    var s := Split(m, b, None, false);
    IdentifierChars(b);
    NormalizeNoDot(b, currentModule);
    assert SplitName(b, m, isa) == s;
    ComposeJoined(b, s, isa, kinds, m + PathJoiner(m) + b);
    ResolutionStages(tags, currentModule, kinds, b, s);
  }

  /** `@name Foo.bar` with `@memberof Foo`: the name is shortened to `bar`
      and the path is `Foo.bar`. */
  lemma ResolveQualifiedUnderMemberof(tags: map<string, string>, currentModule: string, kinds: set<string>,
                                      m: string, b: string)
    requires TagValue(tags, "name") == Some(m + "." + b) && TagValue(tags, "memberof") == Some(m)
    requires !SetsDocspace(TagValue(tags, "isa"), kinds)
    requires IsIdentifier(m) && m != "" && m != "exports"
    requires IsIdentifier(b) && b != "" && !StartsWith(b, "prototype")
    ensures Resolution(tags, currentModule, kinds) == Outcome(None, false, b, m + "." + b)
  {
    var isa := TagValue(tags, "isa");
    var s := Split(m, b, None, false);
    NormalizeDotted(m, b, currentModule);
    SplitUnderOwnMemberof(m, b, isa);
    ComposeDot(m, b, s, isa, kinds);
    ResolutionStages(tags, currentModule, kinds, m + "." + b, s);
  }

  /** `m.b` for identifiers, `m` not `exports` and `b` not starting with
      `prototype`, normalises to itself. */
  lemma NormalizeDotted(m: string, b: string, currentModule: string)
    requires IsIdentifier(m) && m != "exports" && IsIdentifier(b) && !StartsWith(b, "prototype")
    ensures Normalize(m + "." + b, currentModule) == m + "." + b
  {
    var raw := m + "." + b;
    IdentifierChars(m);
    IdentifierChars(b);
    NoWhitespaceConcat(m + ".", b);
    NotExports(m, "." + b);
    assert raw == m + ("." + b);
    NormalizeWord(raw, currentModule);
    ReplacePrototypeDot(m, b);
  }

  /** Under its own container as `memberof` tag, `m.b` is shortened to `b`. */
  lemma SplitUnderOwnMemberof(m: string, b: string, isa: Option<string>)
    requires IsIdentifier(m) && m != "" && IsIdentifier(b)
    ensures SplitName(m + "." + b, m, isa) == Split(m, b, None, false)
  {
    ShortenIdentifiers(m, '.', b);
    assert (m + "." + b)[..|m|] == m;
  }

  /** A kind with a doc-namespace: `scheme:b` loses its scheme in the
      name, and the path is `isa:b`, behind the container and its joiner
      when there is one. */
  lemma ResolveDocspace(tags: map<string, string>, currentModule: string, kinds: set<string>,
                        isa: string, scheme: string, b: string, m: string)
    requires TagValue(tags, "isa") == Some(isa) && isa in kinds
    requires TagValue(tags, "name") == Some(scheme + ":" + b) && TagOr(tags, "memberof") == m
    requires scheme != "" && forall k :: 0 <= k < |scheme| ==> IsSchemeChar(scheme[k])
    requires IsIdentifier(b) && b != ""
    requires m != "" ==> !StartsWith(scheme + ":" + b, m) && !StartsWith(b, m)
    ensures Resolution(tags, currentModule, kinds) ==
            Outcome(None, false, b, (if m == "" then "" else m + PathJoiner(m)) + isa + ":" + b)
  {
    var raw := scheme + ":" + b;
    var s := Split(m, raw, None, false);
    SchemeNameChars(scheme, b);
    NormalizeNoDot(raw, currentModule);
    SplitAtomic(raw, m, TagValue(tags, "isa"));
    StripSchemeOf(scheme, b);
    ComposeDocspace(raw, s, isa, kinds, b);
    ResolutionStages(tags, currentModule, kinds, raw, s);
  }

  /** The characters of `scheme:b` are neither white space, dots, quotes
      nor separators. */
  lemma SchemeNameChars(scheme: string, b: string)
    requires forall k :: 0 <= k < |scheme| ==> IsSchemeChar(scheme[k])
    requires IsIdentifier(b)
    ensures forall k :: 0 <= k < |scheme + ":" + b| ==>
              !IsWhitespace((scheme + ":" + b)[k]) && (scheme + ":" + b)[k] != '.' &&
              (scheme + ":" + b)[k] != '"' && !IsSeparator((scheme + ":" + b)[k])
  {
  }

  /** A name with no quotes and no separators is not split: it stays whole
      under the given `memberof` tag, or under none. */
  lemma SplitAtomic(raw: string, m: string, isa: Option<string>)
    requires forall k :: 0 <= k < |raw| ==> raw[k] != '"' && !IsSeparator(raw[k])
    requires m != "" ==> !StartsWith(raw, m)
    ensures SplitName(raw, m, isa) == Split(m, raw, None, false)
  {
    PlainNameIsAtomic(raw);
  }

  /** The scheme is stripped from `scheme:b`. */
  lemma StripSchemeOf(scheme: string, b: string)
    requires scheme != "" && forall k :: 0 <= k < |scheme| ==> IsSchemeChar(scheme[k])
    requires IsIdentifier(b) && b != ""
    ensures StripScheme(scheme + ":" + b) == b
  {
    var raw := scheme + ":" + b;
    SchemePrefix(scheme, ":" + b);
    assert raw == scheme + (":" + b);
    assert raw[|scheme| + 1..] == b;
    IdentifierChars(b);
    FirstWordOfWord(b);
  }

  /** In a doc-namespace the stripped name is put behind `isa:`, and behind
      the container and its joiner when there is one. */
  lemma ComposeDocspace(full: string, s: Split, isa: string, kinds: set<string>, b: string)
    requires isa in kinds && StripScheme(s.name) == b
    requires s.memberof != "" ==> !StartsWith(b, s.memberof)
    ensures Compose(full, s, Some(isa), kinds) ==
            Outcome(s.memberofTag, s.inner, b,
                    (if s.memberof == "" then "" else s.memberof + PathJoiner(s.memberof)) + isa + ":" + b)
  {
  }

  /** The scheme prefix of `scheme` followed by a non-scheme character is
      the whole of `scheme`. */
  lemma {:induction false} SchemePrefix(scheme: string, rest: string)
    requires forall k :: 0 <= k < |scheme| ==> IsSchemeChar(scheme[k])
    requires rest != [] && !IsSchemeChar(rest[0])
    ensures SchemeLength(scheme + rest) == |scheme|
  {
    if scheme != [] {
      assert (scheme + rest)[1..] == scheme[1..] + rest;
      SchemePrefix(scheme[1..], rest);
    }
  }

  /** The path `resolve` writes is the path it returns; an empty path is
      not written. */
  lemma WrittenPath(tags: map<string, string>, o: Outcome)
    ensures o.path != "" ==> Written(tags, o)["path"] == o.path
    ensures o.path == "" ==> TagValue(Written(tags, o), "path") == TagValue(tags, "path")
  {
  }

  // ---------------------------------------------------------------------
  // resolveThis
  // ---------------------------------------------------------------------

  /** A name that neither sits in an object literal nor starts with
      `this.` is returned unchanged. */
  lemma ThisNameUnchanged(name: string, node: Node, memberofTag: string,
                          objectDoc: Option<DocState>, functionDoc: Option<DocState>)
    requires !(node.parent.Some? && node.parent.value.isObjectLiteral)
    requires !StartsWith(name, "this.")
    ensures ThisName(name, node, memberofTag, objectDoc, functionDoc) == name
  {
  }

  /** An explicit container other than `this` just drops `this.`. */
  lemma ThisExplicitMemberof(x: string, node: Node, memberofTag: string,
                             objectDoc: Option<DocState>, functionDoc: Option<DocState>)
    requires !(node.parent.Some? && node.parent.value.isObjectLiteral)
    requires ReplacePrototype(memberofTag) != "" && ReplacePrototype(memberofTag) != "this"
    ensures ThisName("this." + x, node, memberofTag, objectDoc, functionDoc) == x
  {
  }

  /** The part after the last separator of `c + [sep] + s`, for `s`
      without separators, is `s`. */
  lemma {:induction false} LastPartAfter(c: string, sep: char, s: string)
    requires IsSeparator(sep)
    requires forall k :: 0 <= k < |s| ==> !IsSeparator(s[k])
    ensures LastPart(c + [sep] + s) == s
  {
    var p := c + [sep] + s;
    if s != [] {
      var n := |s| - 1;
      assert p[..|p| - 1] == c + [sep] + s[..n];
      LastPartAfter(c, sep, s[..n]);
      assert s[..n] + [s[n]] == s;
    }
  }

  /** A path without separators is all last part. */
  lemma LastPartWhole(p: string)
    requires forall k :: 0 <= k < |p| ==> !IsSeparator(p[k])
    ensures LastPart(p) == p
  {
  }

  /** In a method documented as `Klass#method` (not a constructor),
      `this.x` is `Klass#x`: the method's own name is replaced. */
  lemma ThisInMethod(x: string, node: Node, memberofTag: string, objectDoc: Option<DocState>,
                     d: DocState, c: string, sep: char, s: string)
    requires !(node.parent.Some? && node.parent.value.isObjectLiteral) && node.enclosingFunction.Some?
    requires ReplacePrototype(memberofTag) == "" || ReplacePrototype(memberofTag) == "this"
    requires !d.inner && TagValue(d.tags, "isa") != Some("constructor")
    requires TagValue(d.tags, "path") == Some(c + [sep] + s) && IsSeparator(sep)
    requires s != "" && forall k :: 0 <= k < |s| ==> !IsSeparator(s[k])
    ensures ThisName("this." + x, node, memberofTag, objectDoc, Some(d)) == c + [sep] + x
  {
    ThisPrefix(x);
    DropSuffixAfter(c, sep, s);
    assert ThisJoiner(c + [sep]) == "";
  }

  /** `this.x` starts with `this.`, and `x` is what follows. */
  lemma ThisPrefix(x: string)
    ensures StartsWith("this." + x, "this.") && ("this." + x)[5..] == x
  {
    assert ("this." + x)[..5] == "this.";
  }

  /** Dropping the last part of `c + [sep] + s`, for non-empty `s` without
      separators, leaves `c + [sep]`. */
  lemma DropSuffixAfter(c: string, sep: char, s: string)
    requires IsSeparator(sep) && s != ""
    requires forall k :: 0 <= k < |s| ==> !IsSeparator(s[k])
    ensures DropSuffix(c + [sep] + s) == c + [sep]
  {
    LastPartAfter(c, sep, s);
    assert (c + [sep] + s)[..|c| + 1] == c + [sep];
  }

  /** When the enclosing function's path has no part after its last
      separator (it ends in one, or has none at all), that path is
      dropped entirely and `this.x` becomes `x`. */
  lemma ThisEmptyContainer(x: string, node: Node, memberofTag: string, objectDoc: Option<DocState>,
                           d: DocState, p: string)
    requires !(node.parent.Some? && node.parent.value.isObjectLiteral) && node.enclosingFunction.Some?
    requires ReplacePrototype(memberofTag) == "" || ReplacePrototype(memberofTag) == "this"
    requires !d.inner && TagValue(d.tags, "isa") != Some("constructor")
    requires TagValue(d.tags, "path") == Some(p) && p != ""
    requires IsSeparator(p[|p| - 1]) || forall k :: 0 <= k < |p| ==> !IsSeparator(p[k])
    ensures ThisName("this." + x, node, memberofTag, objectDoc, Some(d)) == x
  {
    if !IsSeparator(p[|p| - 1]) {
      LastPartWhole(p);
    }
    assert DropSuffix(p) == "";
    assert ("this." + x)[..5] == "this." && ("this." + x)[5..] == x;
  }

  /** In a constructor documented as `Klass`, `this.x` is `Klass#x` (no
      `#` when the path already ends in a separator). */
  lemma ThisInConstructor(x: string, node: Node, memberofTag: string, objectDoc: Option<DocState>,
                          d: DocState, p: string)
    requires !(node.parent.Some? && node.parent.value.isObjectLiteral) && node.enclosingFunction.Some?
    requires ReplacePrototype(memberofTag) == "" || ReplacePrototype(memberofTag) == "this"
    requires !d.inner && TagValue(d.tags, "isa") == Some("constructor")
    requires TagValue(d.tags, "path") == Some(p) && p != ""
    ensures ThisName("this." + x, node, memberofTag, objectDoc, Some(d)) ==
            p + (if IsSeparator(p[|p| - 1]) then "" else "#") + x
  {
  }

  /** In an inner or undocumented function, or one whose doclet has no
      path, `this.x` is just `x`; so it is outside any function. */
  lemma ThisWithoutOwner(x: string, node: Node, memberofTag: string, objectDoc: Option<DocState>,
                         functionDoc: Option<DocState>)
    requires !(node.parent.Some? && node.parent.value.isObjectLiteral)
    requires ReplacePrototype(memberofTag) == "" || ReplacePrototype(memberofTag) == "this"
    requires node.enclosingFunction.None? || functionDoc.None? || functionDoc.value.inner ||
             TagOr(functionDoc.value.tags, "path") == ""
    ensures ThisName("this." + x, node, memberofTag, objectDoc, functionDoc) == x
  {
  }

  /** A member of a documented object literal with path `P` is `P.name`,
      or `Pname` when `P` ends in `#`. */
  lemma ObjectLiteralMember(name: string, node: Node, memberofTag: string, d: DocState,
                            functionDoc: Option<DocState>, p: string)
    requires node.parent.Some? && node.parent.value.isObjectLiteral
    requires TagValue(d.tags, "path") == Some(p) && p != ""
    requires forall k :: 0 <= k <= |p| ==> !StartsWith(p[k..], ".prototype")
    ensures ThisName(name, node, memberofTag, Some(d), functionDoc) ==
            p + (if p[|p| - 1] == '#' then "" else ".") + name
  {
    ReplacePrototypeFixed(p);
  }

  /** A documented object literal without a path tag falls back on its
      `path` property, then on `[[anonymousObject]]`. */
  lemma ObjectLiteralWithoutPathTag(name: string, node: Node, memberofTag: string, d: DocState,
                                    functionDoc: Option<DocState>)
    requires node.parent.Some? && node.parent.value.isObjectLiteral
    requires TagOr(d.tags, "path") == ""
    ensures var m := if d.path != "" then d.path else "[[anonymousObject]]";
            ThisName(name, node, memberofTag, Some(d), functionDoc) == m + ObjectJoiner(m) + name
    ensures d.path == "" ==> ThisName(name, node, memberofTag, Some(d), functionDoc) == "[[anonymousObject]]." + name
  {
  }

  /** An undocumented object literal leaves the name alone. */
  lemma ObjectLiteralUndocumented(name: string, node: Node, memberofTag: string,
                                  functionDoc: Option<DocState>)
    requires node.parent.Some? && node.parent.value.isObjectLiteral
    ensures ThisName(name, node, memberofTag, None, functionDoc) == name
  {
  }

  // ---------------------------------------------------------------------
  // resolveInner
  // ---------------------------------------------------------------------

  /** A closure-local name is `P~name` inside a function documented with
      path `P`, `[[anonymous]]~name` inside an undocumented function whose
      name is empty, and unchanged otherwise. */
  lemma InnerNameCases(name: string, node: Node, functionDoc: Option<DocState>)
    ensures functionDoc.Some? && TagOr(functionDoc.value.tags, "path") != "" ==>
              InnerName(name, node, functionDoc) == TagOr(functionDoc.value.tags, "path") + "~" + name
    ensures functionDoc.None? && node.enclosingFunction.Some? && node.enclosingFunction.value.name == Some("") ==>
              InnerName(name, node, functionDoc) == "[[anonymous]]~" + name
    ensures (functionDoc.Some? && TagOr(functionDoc.value.tags, "path") == "") ||
            (functionDoc.None? && !(node.enclosingFunction.Some? && node.enclosingFunction.value.name == Some(""))) ==>
              InnerName(name, node, functionDoc) == name
  {
  }

  // ---------------------------------------------------------------------
  // The registry
  // ---------------------------------------------------------------------

  /** `Find` answers the last entry registered for the id, and nothing
      exactly when no entry has that id. */
  lemma FindLatest(refs: seq<(nat, Doclet)>, id: nat)
    ensures Find(refs, id).None? <==> forall i :: 0 <= i < |refs| ==> refs[i].0 != id
    ensures Find(refs, id).Some? ==>
              exists i :: 0 <= i < |refs| && refs[i] == (id, Find(refs, id).value) &&
                          forall j :: i < j < |refs| ==> refs[j].0 != id
  {
    FindNone(refs, id);
    if Find(refs, id).Some? {
      FindSome(refs, id);
    }
  }

  /** Nothing is found exactly when no entry has the id. */
  lemma {:induction false} FindNone(refs: seq<(nat, Doclet)>, id: nat)
    ensures Find(refs, id).None? <==> forall i :: 0 <= i < |refs| ==> refs[i].0 != id
  {
    if refs != [] && refs[|refs| - 1].0 != id {
      var r := refs[..|refs| - 1];
      FindNone(r, id);
      assert forall i :: 0 <= i < |r| ==> r[i] == refs[i];
    }
  }

  /** What is found is an entry for the id with no later entry for it. */
  lemma {:induction false} FindSome(refs: seq<(nat, Doclet)>, id: nat)
    requires Find(refs, id).Some?
    ensures exists i :: 0 <= i < |refs| && refs[i] == (id, Find(refs, id).value) &&
                        forall j :: i < j < |refs| ==> refs[j].0 != id
  {
    var n := |refs| - 1;
    if refs[n].0 == id {
      assert refs[n] == (id, Find(refs, id).value);
    } else {
      var r := refs[..n];
      FindSome(r, id);
      var i :| 0 <= i < |r| && r[i] == (id, Find(r, id).value) && forall j :: i < j < |r| ==> r[j].0 != id;
      assert refs[i] == r[i];
      forall j | i < j < |refs| ensures refs[j].0 != id {
        if j < n {
          assert refs[j] == r[j];
        }
      }
    }
  }

  /** The entry registered last for a node is the one found. */
  lemma FindRegistered(refs: seq<(nat, Doclet)>, id: nat, d: Doclet)
    ensures Find(refs + [(id, d)], id) == Some(d)
  {
  }

  /** Registering a node leaves the lookup of every other node as it
      was. */
  lemma FindOther(refs: seq<(nat, Doclet)>, id: nat, d: Doclet, other: nat)
    requires other != id
    ensures Find(refs + [(id, d)], other) == Find(refs, other)
  {
  }
}
