/**
 * The namespace scan of `PhpUnitXmlManager::extractNamespaceFromFile`: the first
 * match of the multi-line pattern `^namespace\s+([^\s;]+)` in a file's contents,
 * with the captured name split at every backslash (PHP's `explode`).
 */
module NamespaceScan {
  import opened Wrappers

  const Keyword: string := "namespace"
  const Separator: char := '\\'

  /** The characters that PCRE's `\s` matches with its default character tables. */
  predicate IsSpace(c: char) {
    c == ' ' || c == '\t' || c == '\n' || c == '\r' || c as int == 11 || c as int == 12
  }

  /** The characters of the class `[^\s;]`. */
  predicate IsNameChar(c: char) {
    !IsSpace(c) && c != ';'
  }

  /** With the `m` modifier, `^` holds at the start of the subject and right after every newline. */
  predicate IsLineStart(s: string, p: nat)
    requires p <= |s|
  {
    p == 0 || s[p - 1] == '\n'
  }

  /**
   * The pattern read literally: `^namespace` at `p`, then `spaces` characters of `\s`,
   * then `name` characters of `[^\s;]`. Any such choice is one way for the pattern to match.
   */
  ghost predicate PatternAt(s: string, p: nat, spaces: nat, name: nat) {
    && p + |Keyword| + spaces + name <= |s|
    && IsLineStart(s, p)
    && s[p..p + |Keyword|] == Keyword
    && spaces >= 1
    && name >= 1
    && (forall k :: p + |Keyword| <= k < p + |Keyword| + spaces ==> IsSpace(s[k]))
    && (forall k :: p + |Keyword| + spaces <= k < p + |Keyword| + spaces + name ==> IsNameChar(s[k]))
  }

  /** The length of the longest run of `\s` characters starting at `from`. */
  function SpaceRun(s: string, from: nat): (n: nat)
    requires from <= |s|
    ensures from + n <= |s|
    ensures forall k :: from <= k < from + n ==> IsSpace(s[k])
    ensures from + n == |s| || !IsSpace(s[from + n])
    decreases |s| - from
  {
    if from == |s| || !IsSpace(s[from]) then 0 else 1 + SpaceRun(s, from + 1)
  }

  /** The length of the longest run of `[^\s;]` characters starting at `from`. */
  function NameRun(s: string, from: nat): (n: nat)
    requires from <= |s|
    ensures from + n <= |s|
    ensures forall k :: from <= k < from + n ==> IsNameChar(s[k])
    ensures from + n == |s| || !IsNameChar(s[from + n])
    decreases |s| - from
  {
    if from == |s| || !IsNameChar(s[from]) then 0 else 1 + NameRun(s, from + 1)
  }

  /** Where the captured name starts when the pattern matches at `p`. */
  function NameStart(s: string, p: nat): (start: nat)
    requires p + |Keyword| <= |s|
    ensures start <= |s|
  {
    p + |Keyword| + SpaceRun(s, p + |Keyword|)
  }

  /** The pattern matches at `p` (greedy `\s+` followed by at least one name character). */
  predicate MatchesAt(s: string, p: nat)
    requires p <= |s|
  {
    && p + |Keyword| <= |s|
    && IsLineStart(s, p)
    && s[p..p + |Keyword|] == Keyword
    && SpaceRun(s, p + |Keyword|) >= 1
    && NameRun(s, NameStart(s, p)) >= 1
  }

  /**
   * `MatchesAt` is the pattern: it matches at `p` exactly when some choice of
   * `\s+` and `[^\s;]+` lengths does, and every such choice uses the whole run of
   * spaces and at most the whole run of name characters, so the greedy capture is
   * the longest one.
   */
  lemma {:induction false} MatchesAtIsPattern(s: string, p: nat, spaces: nat, name: nat)
    requires p <= |s|
    ensures MatchesAt(s, p) ==> PatternAt(s, p, SpaceRun(s, p + |Keyword|), NameRun(s, NameStart(s, p)))
    ensures PatternAt(s, p, spaces, name) ==>
      MatchesAt(s, p) && spaces == SpaceRun(s, p + |Keyword|) && name <= NameRun(s, NameStart(s, p))
  {
    if PatternAt(s, p, spaces, name) {
      var from := p + |Keyword|;
      assert IsNameChar(s[from + spaces]);
      SpaceRunExact(s, from, spaces);
      NameRunCovers(s, from + spaces, name);
    }
  }

  /** A run of `n` spaces ended by a non-space is the longest run. */
  lemma {:induction false} SpaceRunExact(s: string, from: nat, n: nat)
    requires from + n < |s| && !IsSpace(s[from + n])
    requires forall k :: from <= k < from + n ==> IsSpace(s[k])
    ensures SpaceRun(s, from) == n
    decreases n
  {
    if n > 0 {
      SpaceRunExact(s, from + 1, n - 1);
    }
  }

  /** The longest run of name characters is at least as long as any run of them. */
  lemma {:induction false} NameRunCovers(s: string, from: nat, n: nat)
    requires from + n <= |s|
    requires forall k :: from <= k < from + n ==> IsNameChar(s[k])
    ensures NameRun(s, from) >= n
    decreases n
  {
    if n > 0 {
      NameRunCovers(s, from + 1, n - 1);
    }
  }

  /** The leftmost position at or after `from` where the pattern matches, as `preg_match` finds it. */
  function FirstMatch(s: string, from: nat): (r: Option<nat>)
    requires from <= |s|
    ensures r.Some? ==> from <= r.value <= |s| && MatchesAt(s, r.value)
    decreases |s| - from
  {
    if MatchesAt(s, from) then Some(from)
    else if from == |s| then None
    else FirstMatch(s, from + 1)
  }

  /** No position before the one `FirstMatch` finds matches, and `None` means no position at all does. */
  lemma {:induction false} FirstMatchIsLeftmost(s: string, from: nat)
    requires from <= |s|
    ensures FirstMatch(s, from).Some? ==> forall q :: from <= q < FirstMatch(s, from).value ==> !MatchesAt(s, q)
    ensures FirstMatch(s, from).None? ==> forall q :: from <= q <= |s| ==> !MatchesAt(s, q)
    decreases |s| - from
  {
    if !MatchesAt(s, from) && from < |s| {
      FirstMatchIsLeftmost(s, from + 1);
      var r := FirstMatch(s, from + 1);
      assert FirstMatch(s, from) == r;
      forall q | from <= q && (if r.Some? then q < r.value else q <= |s|)
        ensures !MatchesAt(s, q)
      {
      }
    }
  }

  /** The text of the capture group `([^\s;]+)` of a match at `p`. */
  function Capture(s: string, p: nat): (name: string)
    requires p <= |s| && MatchesAt(s, p)
    ensures |name| >= 1
    ensures forall k :: 0 <= k < |name| ==> IsNameChar(name[k])
  {
    var start := NameStart(s, p);
    s[start..start + NameRun(s, start)]
  }

  /**
   * The capture is group 1 of the pattern: the text right after the whole run of
   * `\s` characters, and the longest name run any way of matching at `p` allows.
   */
  lemma CaptureIsGroupOne(s: string, p: nat, spaces: nat, name: nat)
    requires p <= |s| && MatchesAt(s, p)
    ensures NameStart(s, p) + |Capture(s, p)| <= |s|
    ensures Capture(s, p) == s[NameStart(s, p)..NameStart(s, p) + |Capture(s, p)|]
    ensures PatternAt(s, p, SpaceRun(s, p + |Keyword|), |Capture(s, p)|)
    ensures PatternAt(s, p, spaces, name) ==> name <= |Capture(s, p)|
  {
    MatchesAtIsPattern(s, p, spaces, name);
  }

  /** PHP's `implode(sep, parts)`: the parts joined with `sep` between neighbours. */
  function Implode(sep: char, parts: seq<string>): string
  {
    if |parts| == 0 then ""
    else if |parts| == 1 then parts[0]
    else parts[0] + [sep] + Implode(sep, parts[1..])
  }

  /**
   * PHP's `explode(sep, s)` for a one-character separator: the pieces of `s`
   * between the occurrences of `sep`. It is undone by `Implode`.
   */
  function Explode(sep: char, s: string): (parts: seq<string>)
    ensures |parts| >= 1
    ensures forall i :: 0 <= i < |parts| ==> sep !in parts[i]
    ensures Implode(sep, parts) == s
  {
    if |s| == 0 then [""]
    else
      var rest := Explode(sep, s[1..]);
      if s[0] == sep then
        assert ([""] + rest)[1..] == rest;
        [""] + rest
      else
        var parts := [[s[0]] + rest[0]] + rest[1..];
        assert parts[1..] == rest[1..];
        assert s == [s[0]] + s[1..];
        parts
  }

  /** Exploding a piece that holds no separator, followed by more text. */
  lemma {:induction false} ExplodeJoined(sep: char, a: string, b: string)
    requires sep !in a
    ensures Explode(sep, a + [sep] + b) == [a] + Explode(sep, b)
    decreases |a|
  {
    if |a| == 0 {
      assert a + [sep] + b == [sep] + b;
      assert ([sep] + b)[1..] == b;
    } else {
      var t := a + [sep] + b;
      assert t[0] == a[0] && t[1..] == a[1..] + [sep] + b;
      ExplodeJoined(sep, a[1..], b);
      var rest := Explode(sep, t[1..]);
      assert rest[0] == a[1..] && rest[1..] == Explode(sep, b);
      assert Explode(sep, t) == [[a[0]] + rest[0]] + rest[1..];
      assert [a[0]] + a[1..] == a;
    }
  }

  /** Exploding a string without separators yields that string alone. */
  lemma {:induction false} ExplodeAtom(sep: char, a: string)
    requires sep !in a
    ensures Explode(sep, a) == [a]
    decreases |a|
  {
    if |a| > 0 {
      ExplodeAtom(sep, a[1..]);
      assert [a[0]] + a[1..] == a;
    }
  }

  /** `Explode` inverts `Implode` on every non-empty list of separator-free parts. */
  lemma {:induction false} ExplodeImplode(sep: char, parts: seq<string>)
    requires |parts| >= 1
    requires forall i :: 0 <= i < |parts| ==> sep !in parts[i]
    ensures Explode(sep, Implode(sep, parts)) == parts
    decreases |parts|
  {
    if |parts| == 1 {
      ExplodeAtom(sep, parts[0]);
    } else {
      ExplodeImplode(sep, parts[1..]);
      ExplodeJoined(sep, parts[0], Implode(sep, parts[1..]));
      assert [parts[0]] + parts[1..] == parts;
    }
  }

  /**
   * `extractNamespaceFromFile` on the contents of a file: the segments of the name
   * declared by the first matching `namespace` line, or the empty list when no line
   * matches.
   */
  function ExtractNamespace(contents: string): seq<string>
  {
    match FirstMatch(contents, 0)
    case None => []
    case Some(p) => Explode(Separator, Capture(contents, p))
  }

  /**
   * What `extractNamespaceFromFile` returns: the empty list exactly when no line
   * matches; otherwise separator-free segments that join back to the name captured
   * at the first match.
   */
  lemma ExtractNamespaceSpec(contents: string)
    ensures ExtractNamespace(contents) == [] <==> forall p :: 0 <= p <= |contents| ==> !MatchesAt(contents, p)
    ensures ExtractNamespace(contents) != [] ==>
      FirstMatch(contents, 0).Some?
      && Implode(Separator, ExtractNamespace(contents)) == Capture(contents, FirstMatch(contents, 0).value)
    ensures forall i :: 0 <= i < |ExtractNamespace(contents)| ==> Separator !in ExtractNamespace(contents)[i]
  {
    FirstMatchIsLeftmost(contents, 0);
  }
}
