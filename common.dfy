/** Values shared by the watchdog and the viewer: an option type, paths as
    lists of names, and Python's `str.strip()`. */
module Common {

  datatype Option<T> = None | Some(value: T)

  /** A filesystem path as the list of its names, root first.
      `os.path.join(p, n)` appends the single name `n`. */
  type Path = seq<string>

  /** `os.path.basename`: the last name, or "" for the empty path. */
  function Basename(p: Path): string
  {
    if |p| == 0 then "" else p[|p| - 1]
  }

  /** `os.path.dirname`: everything but the last name. */
  function Dirname(p: Path): Path
  {
    if |p| == 0 then [] else p[..|p| - 1]
  }

  /** `os.path.join(p, name)`; splitting the result again gives back both parts. */
  function Join(p: Path, name: string): (r: Path)
    ensures Dirname(r) == p && Basename(r) == name
    ensures |r| == |p| + 1
  {
    p + [name]
  }

  /** Number of leading names two paths share. */
  function CommonPrefixLength(a: Path, b: Path): (n: nat)
    ensures n <= |a| && n <= |b|
    ensures a[..n] == b[..n]
    ensures n < |a| && n < |b| ==> a[n] != b[n]
  {
    if |a| == 0 || |b| == 0 || a[0] != b[0] then 0
    else
      var m := CommonPrefixLength(a[1..], b[1..]);
      assert a[..m + 1] == [a[0]] + a[1..][..m];
      assert b[..m + 1] == [b[0]] + b[1..][..m];
      1 + m
  }

  /** The first name of `os.path.relpath(path, start)`: `relpath` climbs with
      ".." out of `start` down to the common prefix, then descends into
      `path`, and gives "." when the two are the same. */
  function RelPathHead(path: Path, start: Path): (r: string)
    ensures |start| < |path| && path[..|start|] == start ==> r == path[|start|]
    ensures path == start ==> r == "."
    ensures !(|start| <= |path| && path[..|start|] == start) ==> r == ".."
  {
    var c := CommonPrefixLength(path, start);
    if c < |start| then ".." else if c < |path| then path[c] else "."
  }

  /** The characters Python's `str.isspace` accepts, which `str.strip()` removes. */
  predicate IsSpace(c: char)
  {
    c == ' ' || '\t' <= c <= '\r' || '\U{1C}' <= c <= '\U{1F}'
    || c == '\U{85}' || c == '\U{A0}' || c == '\U{1680}'
    || '\U{2000}' <= c <= '\U{200A}' || c == '\U{2028}' || c == '\U{2029}'
    || c == '\U{202F}' || c == '\U{205F}' || c == '\U{3000}'
  }

  predicate AllSpace(s: string)
  {
    forall i :: 0 <= i < |s| ==> IsSpace(s[i])
  }

  /** `str.strip()`: the text without leading and trailing whitespace,
      dropped one character at a time. */
  function Strip(s: string): string
    decreases |s|
  {
    if |s| > 0 && IsSpace(s[0]) then Strip(s[1..])
    else if |s| > 0 && IsSpace(s[|s| - 1]) then Strip(s[..|s| - 1])
    else s
  }

  /** What Strip leaves neither starts nor ends with whitespace. */
  lemma {:induction false} StripEnds(s: string)
    ensures Strip(s) == [] || (!IsSpace(Strip(s)[0]) && !IsSpace(Strip(s)[|Strip(s)| - 1]))
    decreases |s|
  {
    if |s| > 0 && IsSpace(s[0]) {
      StripEnds(s[1..]);
    } else if |s| > 0 && IsSpace(s[|s| - 1]) {
      StripEnds(s[..|s| - 1]);
    }
  }

  /** `r` sits in `s` at offset `k` with only whitespace around it. */
  ghost predicate PaddedAt(s: string, k: nat, r: string)
  {
    k + |r| <= |s|
    && (forall p :: 0 <= p < |r| ==> s[k + p] == r[p])
    && (forall p :: 0 <= p < k ==> IsSpace(s[p]))
    && (forall p :: k + |r| <= p < |s| ==> IsSpace(s[p]))
  }

  /** Whitespace put back in front keeps `r` padded, one place further on. */
  lemma PaddedAfterSpace(s: string, k: nat, r: string)
    requires |s| > 0 && IsSpace(s[0])
    requires PaddedAt(s[1..], k, r)
    ensures PaddedAt(s, k + 1, r)
  {
  }

  /** Whitespace put back at the end keeps `r` padded at the same place. */
  lemma PaddedBeforeSpace(s: string, k: nat, r: string)
    requires |s| > 0 && IsSpace(s[|s| - 1])
    requires PaddedAt(s[..|s| - 1], k, r)
    ensures PaddedAt(s, k, r)
  {
  }

  /** Strip removes whitespace-only text from both ends and nothing else. */
  lemma {:induction false} StripShape(s: string)
    ensures exists k: nat :: PaddedAt(s, k, Strip(s))
    decreases |s|
  {
    var r := Strip(s);
    if |s| > 0 && IsSpace(s[0]) {
      StripShape(s[1..]);
      var k: nat :| PaddedAt(s[1..], k, r);
      PaddedAfterSpace(s, k, r);
    } else if |s| > 0 && IsSpace(s[|s| - 1]) {
      StripShape(s[..|s| - 1]);
      var k: nat :| PaddedAt(s[..|s| - 1], k, r);
      PaddedBeforeSpace(s, k, r);
    } else {
      assert PaddedAt(s, 0, r);
    }
  }

  /** Whitespace, then a name without surrounding whitespace, then more
      whitespace strips to that name: a marker holding "480\n" names the
      folder "480". */
  lemma {:induction false} StripPadded(pre: string, t: string, post: string)
    requires AllSpace(pre) && AllSpace(post)
    requires t == [] || (!IsSpace(t[0]) && !IsSpace(t[|t| - 1]))
    ensures Strip(pre + t + post) == t
    decreases |pre| + |post|
  {
    var s := pre + t + post;
    if |pre| > 0 {
      assert s[0] == pre[0];
      assert s[1..] == pre[1..] + t + post;
      StripPadded(pre[1..], t, post);
    } else if t == [] && |post| > 0 {
      assert s == post;
      assert s[1..] == [] + [] + post[1..];
      StripPadded([], [], post[1..]);
    } else if |post| > 0 {
      assert s == t + post;
      assert s[0] == t[0];
      assert s[|s| - 1] == post[|post| - 1];
      assert s[..|s| - 1] == [] + t + post[..|post| - 1];
      StripPadded([], t, post[..|post| - 1]);
    } else {
      assert s == t;
    }
  }
}
