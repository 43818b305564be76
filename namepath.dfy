/** The namepath algebra of `jsdoc/name`: splitting a namepath at its last
    separator (`shorten`).  A namepath is a sequence of segments joined by
    `.` (static member), `#` (instance member) or `~` (inner member); a
    double-quoted segment is an atom whose contents are never split.

    `Shorten` is the specification: the path is cut into tokens (quoted
    atoms and single characters) and split at its last separator token.
    `ShortenMasking` is the algorithm the source runs: mask the quoted
    atoms with numbered placeholders, find the last separator, then put
    the atoms back one by one. */
module Namepath {
  import opened Strings

  predicate IsSeparator(c: char) {
    c == '.' || c == '#' || c == '~'
  }

  // ---------------------------------------------------------------------
  // Quoted atoms: the pattern `".+?"`, applied left to right
  // ---------------------------------------------------------------------

  /** The lazy search of `.+?"` from index `j` on: how far the first `"` at
      or after `j` is, provided no line terminator comes before it. */
  function ScanFrom(p: string, j: nat): (r: Option<nat>)
    decreases |p| - j
    ensures r.Some? ==> j + r.value < |p|
  {
    if j >= |p| then None
    else if p[j] == '"' then Some(0)
    else if IsLineTerminator(p[j]) then None
    else match ScanFrom(p, j + 1)
      case None => None
      case Some(d) => Some(d + 1)
  }

  /** The length of the quoted atom that starts at `p[i]`, if one does (see
      AtomShape). */
  function AtomLength(p: string, i: nat): (r: Option<nat>)
    ensures r.Some? ==> 3 <= r.value && i + r.value <= |p|
  {
    if i + 2 < |p| && p[i] == '"' && !IsLineTerminator(p[i + 1]) then
      match ScanFrom(p, i + 2)
      case None => None
      case Some(d) => Some(d + 3)
    else None
  }

  /** What the scan for the closing quote finds: a `"` with neither a `"`
      nor a line terminator before it. */
  lemma {:induction false} ScanFromShape(p: string, j: nat)
    requires ScanFrom(p, j).Some?
    ensures var d := ScanFrom(p, j).value;
            p[j + d] == '"' && forall k :: j <= k < j + d ==> p[k] != '"' && !IsLineTerminator(p[k])
    decreases |p| - j
  {
    if p[j] != '"' {
      ScanFromShape(p, j + 1);
    }
  }

  /** A quoted atom opens at a `"` and closes at the first `"` at least two
      characters later, with no line terminator between. */
  lemma AtomShape(p: string, i: nat)
    requires AtomLength(p, i).Some?
    ensures var n := AtomLength(p, i).value;
            p[i] == '"' && p[i + n - 1] == '"' &&
            (forall k :: i + 2 <= k < i + n - 1 ==> p[k] != '"') &&
            (forall k :: i < k < i + n - 1 ==> !IsLineTerminator(p[k]))
  {
    ScanFromShape(p, i + 2);
  }

  /** A namepath seen as the regex sees it: quoted atoms and single characters. */
  datatype Token = Char(c: char) | Quoted(text: string)

  function Text(t: Token): string {
    match t
    case Char(c) => [c]
    case Quoted(s) => s
  }

  predicate IsSeparatorToken(t: Token) {
    t.Char? && IsSeparator(t.c)
  }

  function Flatten(ts: seq<Token>): string {
    if ts == [] then "" else Text(ts[0]) + Flatten(ts[1..])
  }

  /** How many characters the token at `p[i]` covers: a whole quoted atom
      or one character. */
  function Width(p: string, i: nat): (w: nat)
    requires i < |p|
    ensures 1 <= w && i + w <= |p|
  {
    match AtomLength(p, i)
    case Some(n) => n
    case None => 1
  }

  function TokenAt(p: string, i: nat): Token
    requires i < |p|
  {
    if AtomLength(p, i).Some? then Quoted(p[i..i + Width(p, i)]) else Char(p[i])
  }

  /** The tokens of `p[i..]`, scanning left to right as `String.replace`
      with a global regex does: at each position either an atom starts and
      the scan resumes after it, or one character is kept. */
  function TokensFrom(p: string, i: nat): seq<Token>
    requires i <= |p|
    decreases |p| - i
  {
    if i == |p| then [] else [TokenAt(p, i)] + TokensFrom(p, i + Width(p, i))
  }

  /** One step of the scan. */
  lemma TokensFromStep(p: string, i: nat)
    requires i < |p|
    ensures TokensFrom(p, i) == [TokenAt(p, i)] + TokensFrom(p, i + Width(p, i))
  {
  }

  function Tokens(p: string): seq<Token> {
    TokensFrom(p, 0)
  }

  /** The tokens spell the text back exactly. */
  lemma {:induction false} FlattenTokensFrom(p: string, i: nat)
    requires i <= |p|
    ensures Flatten(TokensFrom(p, i)) == p[i..]
    decreases |p| - i
  {
    if i < |p| {
      var w := Width(p, i);
      var rest := TokensFrom(p, i + w);
      FlattenTokensFrom(p, i + w);
      assert Text(TokenAt(p, i)) == p[i..i + w];
      assert ([TokenAt(p, i)] + rest)[1..] == rest;
      assert p[i..] == p[i..i + w] + p[i + w..];
    }
  }

  lemma FlattenTokens(p: string)
    ensures Flatten(Tokens(p)) == p
  {
    FlattenTokensFrom(p, 0);
  }

  /** The index of the last separator token (the last `.`, `#` or `~` outside
      quoted atoms), if any. */
  function LastSeparator(ts: seq<Token>): (r: Option<nat>)
    ensures r.Some? ==> r.value < |ts| && IsSeparatorToken(ts[r.value])
    ensures r.Some? ==> forall k :: r.value < k < |ts| ==> !IsSeparatorToken(ts[k])
    ensures r.None? ==> forall k :: 0 <= k < |ts| ==> !IsSeparatorToken(ts[k])
  {
    if ts == [] then None
    else if IsSeparatorToken(ts[|ts| - 1]) then Some(|ts| - 1)
    else LastSeparator(ts[..|ts| - 1])
  }

  /** What stays of the separator at the end of the prefix: `#` and `~` mark
      the scope and are kept, `.` is dropped. */
  function Kept(sep: char): string {
    if sep == '.' then "" else [sep]
  }

  /** `shorten(path)`: the container prefix and the short name. */
  function Shorten(path: string): (r: (string, string))
  {
    var ts := Tokens(path);
    match LastSeparator(ts)
    case None => ("", path)
    case Some(m) => (Flatten(ts[..m]) + Kept(ts[m].c), Flatten(ts[m + 1..]))
  }

  /** The index in `path` of the separator `Shorten` splits at. */
  function SplitIndex(path: string): Option<nat> {
    var ts := Tokens(path);
    match LastSeparator(ts)
    case None => None
    case Some(m) => Some(|Flatten(ts[..m])|)
  }

  // ---------------------------------------------------------------------
  // Lemmas about tokens
  // ---------------------------------------------------------------------

  lemma {:induction false} FlattenAppend(a: seq<Token>, b: seq<Token>)
    ensures Flatten(a + b) == Flatten(a) + Flatten(b)
    decreases |a|
  {
    if a == [] {
      assert a + b == b;
    } else {
      assert (a + b)[0] == a[0] && (a + b)[1..] == a[1..] + b;
      FlattenAppend(a[1..], b);
      var h := Text(a[0]);
      assert h + (Flatten(a[1..]) + Flatten(b)) == (h + Flatten(a[1..])) + Flatten(b);
    }
  }

  /** The tokens of a string without quotes: one character each. */
  function CharTokens(s: string): (ts: seq<Token>)
    ensures |ts| == |s|
  {
    seq(|s|, k requires 0 <= k < |s| => Char(s[k]))
  }

  lemma CharTokensAppend(a: string, b: string)
    ensures CharTokens(a + b) == CharTokens(a) + CharTokens(b)
  {
  }

  lemma {:induction false} FlattenCharTokens(s: string)
    ensures Flatten(CharTokens(s)) == s
    decreases |s|
  {
    if s != [] {
      assert CharTokens(s)[1..] == CharTokens(s[1..]);
      FlattenCharTokens(s[1..]);
      assert s == [s[0]] + s[1..];
    }
  }

  /** A stretch without quotes is tokenized character by character. */
  lemma {:induction false} TokensFromPlain(p: string, i: nat, e: nat)
    requires i <= e <= |p|
    requires forall k :: i <= k < e ==> p[k] != '"'
    ensures TokensFrom(p, i) == CharTokens(p[i..e]) + TokensFrom(p, e)
    decreases e - i
  {
    if i < e {
      TokensFromChar(p, i);
      TokensFromPlain(p, i + 1, e);
      CharTokensCons(p, i, e, TokensFrom(p, e));
    } else {
      assert p[i..e] == [];
    }
  }

  /** A character that is not a quote is a token of its own. */
  lemma TokensFromChar(p: string, i: nat)
    requires i < |p| && p[i] != '"'
    ensures TokensFrom(p, i) == [Char(p[i])] + TokensFrom(p, i + 1)
  {
    assert AtomLength(p, i).None?;
    TokensFromStep(p, i);
  }

  lemma CharTokensCons(p: string, i: nat, e: nat, rest: seq<Token>)
    requires i < e <= |p|
    ensures [Char(p[i])] + (CharTokens(p[i + 1..e]) + rest) == CharTokens(p[i..e]) + rest
  {
    assert CharTokens(p[i..e]) == [Char(p[i])] + CharTokens(p[i + 1..e]);
  }

  /** `p` from `i` on and `q` from `j` on are the same text. */
  ghost predicate Agree(p: string, i: nat, q: string, j: nat) {
    && i <= |p| && j <= |q| && |p| - i == |q| - j
    && forall t :: i <= t < |p| ==> p[t] == q[t - i + j]
  }

  lemma {:induction false} ScanFromAgree(p: string, i: nat, q: string, j: nat, d: nat)
    requires Agree(p, i, q, j)
    ensures ScanFrom(p, i + d) == ScanFrom(q, j + d)
    decreases |p| - i - d
  {
    if i + d < |p| {
      assert p[i + d] == q[j + d];
      ScanFromAgree(p, i, q, j, d + 1);
    }
  }

  /** The next token depends only on the text from the scan position on. */
  lemma StepAgree(p: string, i: nat, q: string, j: nat)
    requires Agree(p, i, q, j) && i < |p|
    ensures Width(p, i) == Width(q, j) && TokenAt(p, i) == TokenAt(q, j)
  {
    if i + 2 < |p| {
      assert p[i] == q[j] && p[i + 1] == q[j + 1];
      ScanFromAgree(p, i, q, j, 2);
    }
    assert p[i] == q[j];
    var w := Width(p, i);
    var x, y := p[i..i + w], q[j..j + w];
    assert x == y by {
      forall t | 0 <= t < w ensures x[t] == y[t] {
        assert p[i + t] == q[i + t - i + j];
      }
    }
  }

  lemma AgreeAfter(p: string, i: nat, q: string, j: nat, w: nat)
    requires Agree(p, i, q, j) && i + w <= |p|
    ensures Agree(p, i + w, q, j + w)
  {
    forall t | i + w <= t < |p| ensures p[t] == q[t - (i + w) + (j + w)] {
      assert p[t] == q[t - i + j];
    }
  }

  /** Two scan positions with the same next token and the same tokens
      after it have the same tokens. */
  lemma TokensFromCons(p: string, i: nat, q: string, j: nat, w: nat)
    requires i < |p| && j < |q| && w == Width(p, i) == Width(q, j)
    requires TokenAt(p, i) == TokenAt(q, j)
    requires TokensFrom(p, i + w) == TokensFrom(q, j + w)
    ensures TokensFrom(p, i) == TokensFrom(q, j)
  {
    TokensFromStep(p, i);
    TokensFromStep(q, j);
  }

  /** Tokenizing depends only on the text from the scan position on: what
      comes before it makes no difference. */
  lemma {:induction false} TokensFromAgree(p: string, i: nat, q: string, j: nat)
    requires Agree(p, i, q, j)
    ensures TokensFrom(p, i) == TokensFrom(q, j)
    decreases |p| - i
  {
    if i < |p| {
      StepAgree(p, i, q, j);
      var w := Width(p, i);
      AgreeAfter(p, i, q, j, w);
      TokensFromAgree(p, i + w, q, j + w);
      TokensFromCons(p, i, q, j, w);
    } else {
      TokensFromEmpty(p, i);
      TokensFromEmpty(q, j);
    }
  }

  /** The position the scan reaches after `m` tokens from `i`. */
  function After(p: string, i: nat, m: nat): (j: nat)
    requires i <= |p|
    ensures i <= j <= |p|
    decreases m
  {
    if m == 0 || i == |p| then i else After(p, i + Width(p, i), m - 1)
  }

  /** The tokens after the first `m` are the tokens from where the scan
      has then reached. */
  lemma {:induction false} TokensAfter(p: string, i: nat, m: nat)
    requires i <= |p| && m <= |TokensFrom(p, i)|
    ensures TokensFrom(p, i)[m..] == TokensFrom(p, After(p, i, m))
    decreases m
  {
    if m > 0 {
      TokensFromEmpty(p, i);
      var w := Width(p, i);
      TokensFromStep(p, i);
      TokensAfter(p, i + w, m - 1);
      ConsDrop(TokenAt(p, i), TokensFrom(p, i + w), m);
    }
  }

  lemma TokensFromEmpty(p: string, i: nat)
    requires i <= |p|
    ensures TokensFrom(p, i) == [] <==> i == |p|
  {
    if i < |p| {
      TokensFromStep(p, i);
    }
  }

  lemma ConsDrop(t: Token, rs: seq<Token>, m: nat)
    requires 1 <= m <= |rs| + 1
    ensures ([t] + rs)[m..] == rs[m - 1..]
  {
  }

  /** A separator at `m` with none after it is the last separator. */
  lemma LastSeparatorAt(ts: seq<Token>, m: nat)
    requires m < |ts| && IsSeparatorToken(ts[m])
    requires forall k :: m < k < |ts| ==> !IsSeparatorToken(ts[k])
    ensures LastSeparator(ts) == Some(m)
  {
  }

  // ---------------------------------------------------------------------
  // Properties of shorten
  // ---------------------------------------------------------------------

  /** The text of the tokens before, at and after index `m`. */
  lemma FlattenAround(ts: seq<Token>, m: nat)
    requires m < |ts|
    ensures Flatten(ts) == Flatten(ts[..m]) + Text(ts[m]) + Flatten(ts[m + 1..])
  {
    assert ts == ts[..m] + ts[m..];
    FlattenAppend(ts[..m], ts[m..]);
    assert ts[m..][1..] == ts[m + 1..];
  }

  /** Splitting loses nothing: the prefix is everything before the
      separator (with `#` or `~` kept), the short name everything after it,
      and quoted atoms come back unchanged.  A path without a separator
      outside quotes is all short name. */
  lemma ShortenRoundTrip(path: string)
    ensures SplitIndex(path).None? ==> Shorten(path) == ("", path)
    ensures SplitIndex(path).Some? ==>
              var k := SplitIndex(path).value;
              k < |path| && IsSeparator(path[k]) &&
              Shorten(path) == (path[..k] + Kept(path[k]), path[k + 1..])
    ensures Shorten(path).0 + Shorten(path).1 == path || Shorten(path).0 + "." + Shorten(path).1 == path
  {
    var ts := Tokens(path);
    var r := LastSeparator(ts);
    FlattenTokens(path);
    if r.Some? {
      var m := r.value;
      var before, sep, after := Flatten(ts[..m]), ts[m].c, Flatten(ts[m + 1..]);
      FlattenAround(ts, m);
      assert path == before + [sep] + after;
      var k := |before|;
      assert path[..k] == before && path[k] == sep && path[k + 1..] == after;
      assert Shorten(path) == (before + Kept(sep), after);
      if sep == '.' {
        assert Shorten(path).0 == before && "." == [sep];
      } else {
        assert Shorten(path).0 == before + [sep];
      }
    }
  }

  /** The text of the tokens after index `m` is tokenized into exactly
      those tokens. */
  lemma TokensOfTail(path: string, m: nat)
    requires m < |Tokens(path)|
    ensures Tokens(Flatten(Tokens(path)[m + 1..])) == Tokens(path)[m + 1..]
  {
    var k := After(path, 0, m + 1);
    TokensAfter(path, 0, m + 1);
    FlattenTokensFrom(path, k);
    assert Agree(path[k..], 0, path, k);
    TokensFromAgree(path[k..], 0, path, k);
  }

  /** The short name holds no separator outside quotes, so shortening it
      again leaves it whole. */
  lemma ShortNameIsAtomic(path: string)
    ensures LastSeparator(Tokens(Shorten(path).1)).None?
    ensures Shorten(Shorten(path).1) == ("", Shorten(path).1)
  {
    var ts := Tokens(path);
    var r := LastSeparator(ts);
    if r.Some? {
      var m := r.value;
      TokensOfTail(path, m);
      var tail := Tokens(Shorten(path).1);
      assert tail == ts[m + 1..];
      forall j | 0 <= j < |tail| ensures !IsSeparatorToken(tail[j]) {
        assert tail[j] == ts[m + 1 + j];
      }
    }
  }

  /** Joining a quote-free container and an atomic name with a separator,
      then shortening, gives the container (with `#` or `~` kept) and the
      name back. */
  lemma ShortenJoin(container: string, sep: char, name: string)
    requires '"' !in container
    requires IsSeparator(sep)
    requires LastSeparator(Tokens(name)).None?
    ensures Shorten(container + [sep] + name) == (container + Kept(sep), name)
  {
    var path := container + [sep] + name;
    var c := |container|;
    var ts := Tokens(path);
    assert ts == CharTokens(container + [sep]) + Tokens(name) by {
      assert path[..c + 1] == container + [sep];
      assert path[c + 1..] == name;
      forall k | 0 <= k < c + 1 ensures path[k] != '"' {
        if k < c { assert path[k] == container[k]; }
      }
      TokensFromPlain(path, 0, c + 1);
      assert Agree(path, c + 1, name, 0) by {
        forall t | c + 1 <= t < |path| ensures path[t] == name[t - (c + 1) + 0] {
        }
      }
      TokensFromAgree(path, c + 1, name, 0);
    }
    assert LastSeparator(ts) == Some(c) by {
      assert ts[c] == Char(sep);
      forall k | c < k < |ts| ensures !IsSeparatorToken(ts[k]) {
        assert ts[k] == Tokens(name)[k - c - 1];
      }
      LastSeparatorAt(ts, c);
    }
    assert Flatten(ts[..c]) == container by {
      assert ts[..c] == CharTokens(container);
      FlattenCharTokens(container);
    }
    assert Flatten(ts[c + 1..]) == name by {
      assert ts[c + 1..] == Tokens(name);
      FlattenTokens(name);
    }
  }

  /** A name made of characters that are neither quotes nor separators is
      atomic. */
  lemma PlainNameIsAtomic(name: string)
    requires forall k :: 0 <= k < |name| ==> name[k] != '"' && !IsSeparator(name[k])
    ensures LastSeparator(Tokens(name)).None?
    ensures Shorten(name) == ("", name)
  {
    TokensFromPlain(name, 0, |name|);
    assert name[0..|name|] == name;
    var ts := Tokens(name);
    assert ts == CharTokens(name);
    forall k | 0 <= k < |ts| ensures !IsSeparatorToken(ts[k]) {
      assert ts[k] == Char(name[k]);
    }
  }

  /** In a path without quotes, the last separator character is where
      `Shorten` splits. */
  lemma ShortenPlain(path: string, k: nat)
    requires forall j :: 0 <= j < |path| ==> path[j] != '"'
    requires k < |path| && IsSeparator(path[k])
    requires forall j :: k < j < |path| ==> !IsSeparator(path[j])
    ensures Shorten(path) == (path[..k] + Kept(path[k]), path[k + 1..])
  {
    var ts := Tokens(path);
    assert ts == CharTokens(path) by {
      TokensFromPlain(path, 0, |path|);
      assert path[0..|path|] == path;
      TokensFromEmpty(path, |path|);
    }
    assert LastSeparator(ts) == Some(k) by {
      LastSeparatorAt(ts, k);
    }
    assert Flatten(ts[..k]) == path[..k] by {
      assert ts[..k] == CharTokens(path[..k]);
      FlattenCharTokens(path[..k]);
    }
    assert Flatten(ts[k + 1..]) == path[k + 1..] by {
      assert ts[k + 1..] == CharTokens(path[k + 1..]);
      FlattenCharTokens(path[k + 1..]);
    }
  }

  /** The scan for the closing quote runs over a stretch without quotes
      or line terminators and stops at the first `"`. */
  lemma {:induction false} ScanFromPlain(p: string, j: nat, e: nat)
    requires j <= e < |p| && p[e] == '"'
    requires forall k :: j <= k < e ==> p[k] != '"' && !IsLineTerminator(p[k])
    ensures ScanFrom(p, j) == Some(e - j)
    decreases e - j
  {
    if j < e {
      ScanFromPlain(p, j + 1, e);
    }
  }

  /** The tokens of a quoted atom followed by a separator and a plain name. */
  lemma QuotedTokens(a: string, sep: char, name: string)
    requires |a| >= 1
    requires forall k :: 0 <= k < |a| ==> a[k] != '"' && !IsLineTerminator(a[k])
    requires forall k :: 0 <= k < |name| ==> name[k] != '"'
    requires sep != '"'
    ensures var atom := ['"'] + a + ['"'];
            Tokens(atom + [sep] + name) == [Quoted(atom), Char(sep)] + CharTokens(name)
  {
    var atom := ['"'] + a + ['"'];
    var n := |atom|;
    var path := atom + [sep] + name;
    assert path[..n] == atom;
    assert AtomLength(path, 0) == Some(n) by {
      forall k | 2 <= k < n - 1 ensures path[k] != '"' && !IsLineTerminator(path[k]) {
        assert path[k] == a[k - 1];
      }
      ScanFromPlain(path, 2, n - 1);
      assert path[1] == a[0];
    }
    forall k | n <= k < |path| ensures path[k] != '"' {
      if k > n { assert path[k] == name[k - n - 1]; }
    }
    TokensFromPlain(path, n, |path|);
    assert path[n..|path|] == [sep] + name;
    assert Tokens(path) == [TokenAt(path, 0)] + TokensFrom(path, n);
    CharTokensAppend([sep], name);
  }

  /** A separator inside a quoted atom is never split at: `"a.b".c` gives
      the container `"a.b"` and the short name `c`, for any atom text
      without quotes or line terminators and any plain name. */
  lemma ShortenQuotedContainer(a: string, sep: char, name: string)
    requires |a| >= 1
    requires forall k :: 0 <= k < |a| ==> a[k] != '"' && !IsLineTerminator(a[k])
    requires IsSeparator(sep)
    requires forall k :: 0 <= k < |name| ==> name[k] != '"' && !IsSeparator(name[k])
    ensures var atom := ['"'] + a + ['"'];
            Shorten(atom + [sep] + name) == (atom + Kept(sep), name)
  {
    var atom := ['"'] + a + ['"'];
    var ts := Tokens(atom + [sep] + name);
    QuotedTokens(a, sep, name);
    assert LastSeparator(ts) == Some(1) by {
      forall k | 1 < k < |ts| ensures !IsSeparatorToken(ts[k]) {
        assert ts[k] == Char(name[k - 2]);
      }
      LastSeparatorAt(ts, 1);
    }
    assert Flatten(ts[..1]) == atom by {
      assert ts[..1] == [Quoted(atom)];
      assert Flatten([Quoted(atom)]) == atom + Flatten([]);
    }
    assert Flatten(ts[2..]) == name by {
      assert ts[2..] == CharTokens(name);
      FlattenCharTokens(name);
    }
  }

  /** `a.b.c` splits at the last dot, which is dropped. */
  lemma ShortenDotExample()
    ensures Shorten("a.b.c") == ("a.b", "c")
  {
    var p := ['a', '.', 'b', '.', 'c'];
    assert p == "a.b.c";
    assert forall j :: 3 < j < |p| ==> !IsSeparator(p[j]);
    ShortenPlain(p, 3);
    assert p[..3] + Kept(p[3]) == "a.b" && p[4..] == "c";
    assert Shorten(p).0 == "a.b" && Shorten(p).1 == "c";
  }

  /** `a#b` and `a~b` keep their separator on the prefix. */
  lemma ShortenKeptExample(sep: char)
    requires sep == '#' || sep == '~'
    ensures Shorten(['a', sep, 'b']) == (['a', sep], "b")
  {
    var p := ['a', sep, 'b'];
    ShortenPlain(p, 1);
    assert p[..1] + Kept(p[1]) == ['a', sep] && p[2..] == "b";
    assert Shorten(p).0 == ['a', sep] && Shorten(p).1 == "b";
  }

  /** `"a.b".c`: the dot inside the quotes is not split at. */
  lemma ShortenQuotedExample()
    ensures Shorten("\"a.b\".c") == ("\"a.b\"", "c")
  {
    ShortenQuotedContainer("a.b", '.', "c");
    assert ['"'] + "a.b" + ['"'] + ['.'] + "c" == "\"a.b\".c";
    assert ['"'] + "a.b" + ['"'] + Kept('.') == "\"a.b\"";
  }

  // ---------------------------------------------------------------------
  // The masking algorithm
  // ---------------------------------------------------------------------

  /** A character of the masked path: a character of the original path or
      the placeholder `@{i}@` standing for the i-th quoted atom. */
  datatype Piece = Plain(c: char) | Placeholder(index: nat)

  predicate IsSeparatorPiece(p: Piece) {
    p.Plain? && IsSeparator(p.c)
  }

  function UnmaskPiece(p: Piece, atoms: seq<string>): Token {
    match p
    case Plain(c) => Char(c)
    case Placeholder(i) => if i < |atoms| then Quoted(atoms[i]) else Quoted("")
  }

  /** The tokens a masked path stands for. */
  function Unmask(ps: seq<Piece>, atoms: seq<string>): (ts: seq<Token>)
    ensures |ts| == |ps|
  {
    seq(|ps|, k requires 0 <= k < |ps| => UnmaskPiece(ps[k], atoms))
  }

  /** The placeholder numbers of a masked path, left to right. */
  function Indices(ps: seq<Piece>): seq<nat> {
    if ps == [] then []
    else (if ps[0].Placeholder? then [ps[0].index] else []) + Indices(ps[1..])
  }

  function Plains(s: string): (ps: seq<Piece>)
    ensures |ps| == |s|
  {
    seq(|s|, k requires 0 <= k < |s| => Plain(s[k]))
  }

  /** The text of a masked path whose placeholders are all restored. */
  function PlainText(ps: seq<Piece>): string {
    if ps == [] then ""
    else (if ps[0].Plain? then [ps[0].c] else "") + PlainText(ps[1..])
  }

  /** `s.replace('@{i}@', atom)`: only the first occurrence is replaced. */
  function ReplaceFirst(ps: seq<Piece>, i: nat, atom: string): seq<Piece> {
    if ps == [] then []
    else if ps[0] == Placeholder(i) then Plains(atom) + ps[1..]
    else [ps[0]] + ReplaceFirst(ps[1..], i, atom)
  }

  ghost predicate Increasing(xs: seq<nat>) {
    forall a, b :: 0 <= a < b < |xs| ==> xs[a] < xs[b]
  }

  ghost predicate Within(xs: seq<nat>, lo: nat, hi: nat) {
    forall a :: 0 <= a < |xs| ==> lo <= xs[a] < hi
  }

  lemma UnmaskAppend(a: seq<Piece>, b: seq<Piece>, atoms: seq<string>)
    ensures Unmask(a + b, atoms) == Unmask(a, atoms) + Unmask(b, atoms)
  {
  }

  lemma {:induction false} IndicesAppend(a: seq<Piece>, b: seq<Piece>)
    ensures Indices(a + b) == Indices(a) + Indices(b)
    decreases |a|
  {
    if a == [] {
      assert a + b == b;
    } else {
      var h := if a[0].Placeholder? then [a[0].index] else [];
      assert (a + b)[0] == a[0] && (a + b)[1..] == a[1..] + b;
      IndicesAppend(a[1..], b);
      assert h + (Indices(a[1..]) + Indices(b)) == (h + Indices(a[1..])) + Indices(b);
    }
  }

  lemma {:induction false} IndicesPlains(s: string)
    ensures Indices(Plains(s)) == []
    decreases |s|
  {
    if s != [] {
      assert Plains(s)[1..] == Plains(s[1..]);
      IndicesPlains(s[1..]);
    }
  }

  lemma {:induction false} FlattenUnmaskPlains(s: string, atoms: seq<string>)
    ensures Flatten(Unmask(Plains(s), atoms)) == s
  {
    assert Unmask(Plains(s), atoms) == CharTokens(s);
    FlattenCharTokens(s);
  }

  /** Restoring one placeholder does not change the text the masked path
      stands for. */
  lemma {:induction false} ReplaceFirstText(ps: seq<Piece>, i: nat, atoms: seq<string>)
    requires i < |atoms|
    ensures Flatten(Unmask(ReplaceFirst(ps, i, atoms[i]), atoms)) == Flatten(Unmask(ps, atoms))
    decreases |ps|
  {
    if ps != [] {
      assert ps == [ps[0]] + ps[1..];
      UnmaskAppend([ps[0]], ps[1..], atoms);
      FlattenAppend(Unmask([ps[0]], atoms), Unmask(ps[1..], atoms));
      if ps[0] == Placeholder(i) {
        UnmaskAppend(Plains(atoms[i]), ps[1..], atoms);
        FlattenAppend(Unmask(Plains(atoms[i]), atoms), Unmask(ps[1..], atoms));
        FlattenUnmaskPlains(atoms[i], atoms);
        assert Flatten(Unmask([ps[0]], atoms)) == atoms[i];
      } else {
        ReplaceFirstText(ps[1..], i, atoms);
        UnmaskAppend([ps[0]], ReplaceFirst(ps[1..], i, atoms[i]), atoms);
        FlattenAppend(Unmask([ps[0]], atoms), Unmask(ReplaceFirst(ps[1..], i, atoms[i]), atoms));
      }
    }
  }

  ghost predicate AtLeast(xs: seq<nat>, lo: nat) {
    forall a :: 0 <= a < |xs| ==> lo <= xs[a]
  }

  /** With increasing placeholder numbers, all at least `i`, restoring
      placeholder `i` removes it if it is there and touches nothing else. */
  lemma {:induction false} ReplaceFirstIndices(ps: seq<Piece>, i: nat, atom: string)
    requires Increasing(Indices(ps)) && AtLeast(Indices(ps), i)
    ensures var xs := Indices(ps);
            Indices(ReplaceFirst(ps, i, atom)) == if xs != [] && xs[0] == i then xs[1..] else xs
    decreases |ps|
  {
    if ps != [] {
      var xs := Indices(ps);
      var head := if ps[0].Placeholder? then [ps[0].index] else [];
      assert xs == head + Indices(ps[1..]);
      if ps[0] == Placeholder(i) {
        IndicesAppend(Plains(atom), ps[1..]);
        IndicesPlains(atom);
      } else if ps[0].Placeholder? {
        assert xs[0] == ps[0].index && xs[0] > i;
        assert forall a :: 0 <= a < |xs| ==> xs[a] != i by {
          forall a | 0 <= a < |xs| ensures xs[a] != i {
            if a > 0 { assert xs[a] > xs[0]; }
          }
        }
        ReplaceFirstAbsent(ps, i, atom);
      } else {
        assert xs == Indices(ps[1..]);
        ReplaceFirstIndices(ps[1..], i, atom);
        IndicesAppend([ps[0]], ReplaceFirst(ps[1..], i, atom));
        assert Indices([ps[0]]) == [];
      }
    }
  }

  /** Restoring a placeholder that is not there changes nothing. */
  lemma {:induction false} ReplaceFirstAbsent(ps: seq<Piece>, i: nat, atom: string)
    requires forall a :: 0 <= a < |Indices(ps)| ==> Indices(ps)[a] != i
    ensures ReplaceFirst(ps, i, atom) == ps
    decreases |ps|
  {
    if ps != [] {
      var head := if ps[0].Placeholder? then [ps[0].index] else [];
      assert Indices(ps) == head + Indices(ps[1..]);
      assert ps[0] != Placeholder(i) by {
        if ps[0].Placeholder? { assert Indices(ps)[0] == ps[0].index; }
      }
      forall a | 0 <= a < |Indices(ps[1..])| ensures Indices(ps[1..])[a] != i {
        assert Indices(ps[1..])[a] == Indices(ps)[a + |head|];
      }
      ReplaceFirstAbsent(ps[1..], i, atom);
      assert ps == [ps[0]] + ps[1..];
    }
  }

  /** A masked path with no placeholder left is plain text. */
  lemma {:induction false} PlainTextRestored(ps: seq<Piece>, atoms: seq<string>)
    requires Indices(ps) == []
    ensures PlainText(ps) == Flatten(Unmask(ps, atoms))
    decreases |ps|
  {
    if ps != [] {
      assert ps == [ps[0]] + ps[1..];
      assert Indices(ps[1..]) == [];
      PlainTextRestored(ps[1..], atoms);
      UnmaskAppend([ps[0]], ps[1..], atoms);
      FlattenAppend(Unmask([ps[0]], atoms), Unmask(ps[1..], atoms));
    }
  }

  /** The slice `xs[lo..hi]` of the numbering 0, 1, ..., n-1 is increasing and
      within [lo, hi). */
  lemma NumberingSlice(n: nat, xs: seq<nat>, lo: nat, hi: nat)
    requires lo <= hi <= n
    requires xs == seq(n, k requires 0 <= k < n => k)[lo..hi]
    ensures Increasing(xs) && Within(xs, lo, hi) && |xs| == hi - lo
  {
  }

  /** The numbering 0, 1, ..., n-1 of the placeholders. */
  function Numbering(n: nat): (xs: seq<nat>)
    ensures |xs| == n
  {
    seq(n, k requires 0 <= k < n => k)
  }

  /** The state of the masking pass after the text before `cursor` has been
      scanned: the masked path and the atoms stand for exactly the tokens of
      that text, and the placeholders are numbered 0, 1, ... in order. */
  ghost predicate Masked(path: string, cursor: nat, masked: seq<Piece>, atoms: seq<string>) {
    && cursor <= |path|
    && Unmask(masked, atoms) + TokensFrom(path, cursor) == Tokens(path)
    && Indices(masked) == Numbering(|atoms|)
    && forall k :: 0 <= k < |masked| && masked[k].Placeholder? ==> masked[k].index < |atoms|
  }

  /** A half of the masked path that stands for `text` and whose
      placeholders, numbered from `n` on, are still to be restored. */
  ghost predicate Restorable(ps: seq<Piece>, atoms: seq<string>, n: nat, text: string) {
    && Flatten(Unmask(ps, atoms)) == text
    && Increasing(Indices(ps))
    && Within(Indices(ps), n, |atoms|)
  }

  /** Masking an atom: a new placeholder numbered after the others. */
  lemma MaskAtom(path: string, cursor: nat, masked: seq<Piece>, atoms: seq<string>)
    requires cursor < |path| && AtomLength(path, cursor).Some?
    requires Masked(path, cursor, masked, atoms)
    ensures var w := Width(path, cursor);
            Masked(path, cursor + w, masked + [Placeholder(|atoms|)], atoms + [path[cursor..cursor + w]])
  {
    var w := Width(path, cursor);
    var atom := path[cursor..cursor + w];
    var masked', atoms' := masked + [Placeholder(|atoms|)], atoms + [atom];
    assert Unmask(masked', atoms') + TokensFrom(path, cursor + w) == Tokens(path) by {
      TokensFromStep(path, cursor);
      UnmaskExtend(masked, atoms, atom);
      SeqAssoc(Unmask(masked, atoms), [Quoted(atom)], TokensFrom(path, cursor + w));
    }
    assert Indices(masked') == Numbering(|atoms'|) by {
      IndicesAppend(masked, [Placeholder(|atoms|)]);
      assert Indices([Placeholder(|atoms|)]) == [|atoms|];
      assert Numbering(|atoms'|) == Numbering(|atoms|) + [|atoms|];
    }
    assert forall k :: 0 <= k < |masked'| && masked'[k].Placeholder? ==> masked'[k].index < |atoms'| by {
      forall k | 0 <= k < |masked'| && masked'[k].Placeholder? ensures masked'[k].index < |atoms'| {
        if k < |masked| { assert masked'[k] == masked[k]; }
      }
    }
  }

  /** A new atom, with its placeholder appended, leaves what the earlier
      pieces stand for unchanged. */
  lemma UnmaskExtend(masked: seq<Piece>, atoms: seq<string>, atom: string)
    requires forall k :: 0 <= k < |masked| && masked[k].Placeholder? ==> masked[k].index < |atoms|
    ensures Unmask(masked + [Placeholder(|atoms|)], atoms + [atom]) == Unmask(masked, atoms) + [Quoted(atom)]
  {
    var atoms' := atoms + [atom];
    forall k | 0 <= k < |masked| ensures UnmaskPiece(masked[k], atoms') == UnmaskPiece(masked[k], atoms) {
    }
  }

  lemma SeqAssoc<T>(a: seq<T>, b: seq<T>, c: seq<T>)
    ensures a + b + c == a + (b + c)
  {
  }

  /** Keeping a character that does not start an atom. */
  lemma MaskChar(path: string, cursor: nat, masked: seq<Piece>, atoms: seq<string>)
    requires cursor < |path| && AtomLength(path, cursor).None?
    requires Masked(path, cursor, masked, atoms)
    ensures Masked(path, cursor + 1, masked + [Plain(path[cursor])], atoms)
  {
    var c := path[cursor];
    var masked' := masked + [Plain(c)];
    assert Unmask(masked', atoms) + TokensFrom(path, cursor + 1) == Tokens(path) by {
      assert TokensFrom(path, cursor) == [Char(c)] + TokensFrom(path, cursor + 1);
      UnmaskAppend(masked, [Plain(c)], atoms);
      assert Unmask([Plain(c)], atoms) == [Char(c)];
      assert Unmask(masked, atoms) + [Char(c)] + TokensFrom(path, cursor + 1)
          == Unmask(masked, atoms) + ([Char(c)] + TokensFrom(path, cursor + 1));
    }
    assert Indices(masked') == Indices(masked) by {
      IndicesAppend(masked, [Plain(c)]);
      assert Indices([Plain(c)]) == [];
    }
    assert forall k :: 0 <= k < |masked'| && masked'[k].Placeholder? ==> masked'[k].index < |atoms| by {
      forall k | 0 <= k < |masked'| && masked'[k].Placeholder? ensures masked'[k].index < |atoms| {
        assert masked'[k] == masked[k];
      }
    }
  }

  /** With no separator in the masked path, the prefix is empty and the
      whole masked path is the short name. */
  lemma NoSplit(path: string, masked: seq<Piece>, atoms: seq<string>)
    requires Masked(path, |path|, masked, atoms)
    requires forall k :: 0 <= k < |masked| ==> !IsSeparatorPiece(masked[k])
    ensures Shorten(path).0 == ""
    ensures Restorable(masked, atoms, 0, Shorten(path).1)
  {
    var ts := Tokens(path);
    assert Unmask(masked, atoms) + [] == ts;
    forall k | 0 <= k < |ts| ensures !IsSeparatorToken(ts[k]) {
      assert ts[k] == UnmaskPiece(masked[k], atoms);
    }
    assert LastSeparator(ts).None?;
    assert Shorten(path) == ("", path);
    assert Unmask(masked, atoms) == ts;
    FlattenTokens(path);
    assert Numbering(|atoms|)[0..|atoms|] == Numbering(|atoms|);
    NumberingSlice(|atoms|, Indices(masked), 0, |atoms|);
  }

  /** Splitting the masked path at its last separator `m` splits the tokens
      at their last separator: the two halves stand for the prefix and the
      short name. */
  lemma SplitText(path: string, masked: seq<Piece>, atoms: seq<string>, m: nat)
    requires Masked(path, |path|, masked, atoms)
    requires m < |masked| && IsSeparatorPiece(masked[m])
    requires forall k :: m < k < |masked| ==> !IsSeparatorPiece(masked[k])
    ensures Flatten(Unmask(masked[..m] + Plains(Kept(masked[m].c)), atoms)) == Shorten(path).0
    ensures Flatten(Unmask(masked[m + 1..], atoms)) == Shorten(path).1
  {
    assert Unmask(masked, atoms) == Tokens(path) by {
      TokensFromEmpty(path, |path|);
      assert Unmask(masked, atoms) + [] == Unmask(masked, atoms);
    }
    LastSeparatorPiece(masked, atoms, m);
    UnmaskSplit(masked, atoms, m);
  }

  /** The last separator piece stands for the last separator token. */
  lemma LastSeparatorPiece(masked: seq<Piece>, atoms: seq<string>, m: nat)
    requires m < |masked| && IsSeparatorPiece(masked[m])
    requires forall k :: m < k < |masked| ==> !IsSeparatorPiece(masked[k])
    ensures LastSeparator(Unmask(masked, atoms)) == Some(m)
  {
    var ts := Unmask(masked, atoms);
    forall k | m < k < |ts| ensures !IsSeparatorToken(ts[k]) {
      assert ts[k] == UnmaskPiece(masked[k], atoms);
    }
    LastSeparatorAt(ts, m);
  }

  /** The two halves of the masked path stand for the tokens before and
      after the separator. */
  lemma UnmaskSplit(masked: seq<Piece>, atoms: seq<string>, m: nat)
    requires m < |masked| && masked[m].Plain?
    ensures var ts, sep := Unmask(masked, atoms), masked[m].c;
            Flatten(Unmask(masked[..m] + Plains(Kept(sep)), atoms)) == Flatten(ts[..m]) + Kept(sep) &&
            Unmask(masked[m + 1..], atoms) == ts[m + 1..]
  {
    var ts, sep := Unmask(masked, atoms), masked[m].c;
    UnmaskAppend(masked[..m], Plains(Kept(sep)), atoms);
    assert Unmask(masked[..m], atoms) == ts[..m];
    FlattenAppend(ts[..m], Unmask(Plains(Kept(sep)), atoms));
    FlattenUnmaskPlains(Kept(sep), atoms);
  }

  /** The placeholders of the two halves keep their increasing numbers. */
  lemma SplitIndices(masked: seq<Piece>, atoms: seq<string>, m: nat)
    requires Indices(masked) == Numbering(|atoms|)
    requires m < |masked| && masked[m].Plain?
    ensures var pre, post := masked[..m] + Plains(Kept(masked[m].c)), masked[m + 1..];
            Increasing(Indices(pre)) && Within(Indices(pre), 0, |atoms|) &&
            Increasing(Indices(post)) && Within(Indices(post), 0, |atoms|)
  {
    var kept := Plains(Kept(masked[m].c));
    var pre, post := masked[..m] + kept, masked[m + 1..];
    assert masked == masked[..m] + masked[m..];
    assert masked[m..] == [masked[m]] + post;
    IndicesAppend(masked[..m], masked[m..]);
    IndicesAppend([masked[m]], post);
    IndicesAppend(masked[..m], kept);
    assert Indices([masked[m]]) == [];
    IndicesPlains(Kept(masked[m].c));
    var j := |Indices(masked[..m])|;
    assert Indices(pre) == Numbering(|atoms|)[..j];
    assert Indices(post) == Numbering(|atoms|)[j..];
    NumberingSlice(|atoms|, Indices(pre), 0, j);
    NumberingSlice(|atoms|, Indices(post), j, |atoms|);
  }

  /** Increasing numbers within [lo, hi) are at most hi - lo many. */
  lemma {:induction false} WithinLength(xs: seq<nat>, lo: nat, hi: nat)
    requires lo <= hi && Increasing(xs) && Within(xs, lo, hi)
    ensures |xs| <= hi - lo
    decreases |xs|
  {
    if xs != [] {
      assert Within(xs[1..], xs[0] + 1, hi) by {
        forall a | 0 <= a < |xs[1..]| ensures xs[0] + 1 <= xs[1..][a] < hi {
          assert xs[1..][a] == xs[a + 1];
        }
      }
      WithinLength(xs[1..], xs[0] + 1, hi);
      assert lo <= xs[0];
    }
  }

  /** Once every placeholder is restored, a half is plain text. */
  lemma Restored(ps: seq<Piece>, atoms: seq<string>, text: string)
    requires Restorable(ps, atoms, |atoms|, text)
    ensures PlainText(ps) == text
  {
    WithinLength(Indices(ps), |atoms|, |atoms|);
    PlainTextRestored(ps, atoms);
  }

  /** `shorten`, run the way the source runs it: quoted atoms are masked by
      numbered placeholders, the last separator of the masked path is found
      by a backward scan, and the placeholders are restored in order. */
  method ShortenMasking(path: string) returns (prefix: string, shortname: string)
    ensures (prefix, shortname) == Shorten(path)
  {
    // mask every quoted atom, left to right
    var atoms: seq<string> := [];
    var masked: seq<Piece> := [];
    var cursor := 0;
    while cursor < |path|
      invariant Masked(path, cursor, masked, atoms)
      decreases |path| - cursor
    {
      if AtomLength(path, cursor).Some? {
        var atom := path[cursor..cursor + Width(path, cursor)];
        MaskAtom(path, cursor, masked, atoms);
        masked := masked + [Placeholder(|atoms|)];
        atoms := atoms + [atom];
        cursor := cursor + |atom|;
      } else {
        MaskChar(path, cursor, masked, atoms);
        masked := masked + [Plain(path[cursor])];
        cursor := cursor + 1;
      }
    }

    // find the last separator: lastIndexOf over the masked path
    var i := |masked|;
    while i > 0 && !IsSeparatorPiece(masked[i - 1])
      invariant 0 <= i <= |masked|
      invariant forall k :: i <= k < |masked| ==> !IsSeparatorPiece(masked[k])
    {
      i := i - 1;
    }

    var pre: seq<Piece>, post: seq<Piece>;
    if i == 0 {
      NoSplit(path, masked, atoms);
      pre, post := [], masked;
    } else {
      SplitText(path, masked, atoms, i - 1);
      SplitIndices(masked, atoms, i - 1);
      pre, post := masked[..i - 1] + Plains(Kept(masked[i - 1].c)), masked[i..];
    }

    // restore the quoted atoms, placeholder by placeholder
    for n := 0 to |atoms|
      invariant Restorable(pre, atoms, n, Shorten(path).0)
      invariant Restorable(post, atoms, n, Shorten(path).1)
    {
      RestoreStep(pre, n, atoms);
      RestoreStep(post, n, atoms);
      pre := ReplaceFirst(pre, n, atoms[n]);
      post := ReplaceFirst(post, n, atoms[n]);
    }
    Restored(pre, atoms, Shorten(path).0);
    Restored(post, atoms, Shorten(path).1);
    prefix := PlainText(pre);
    shortname := PlainText(post);
  }

  /** One step of the restore loop keeps its invariant. */
  lemma RestoreStep(ps: seq<Piece>, n: nat, atoms: seq<string>)
    requires n < |atoms|
    requires Increasing(Indices(ps)) && Within(Indices(ps), n, |atoms|)
    ensures Flatten(Unmask(ReplaceFirst(ps, n, atoms[n]), atoms)) == Flatten(Unmask(ps, atoms))
    ensures Increasing(Indices(ReplaceFirst(ps, n, atoms[n])))
    ensures Within(Indices(ReplaceFirst(ps, n, atoms[n])), n + 1, |atoms|)
  {
    ReplaceFirstText(ps, n, atoms);
    ReplaceFirstIndices(ps, n, atoms[n]);
    var xs := Indices(ps);
    if xs != [] {
      assert forall a :: 0 < a < |xs| ==> xs[a] > xs[0];
    }
  }
}
