/** Paths as they are taken apart: slashes skipped, components between them. */
module Components {
  import opened Bytes

  const SLASH: byte := 47
  const COLON: byte := 58

  /** The first position at or after `p` that is not a slash. */
  function SkipSlashes(path: bytes, p: nat): (q: nat)
    requires p <= |path|
    ensures p <= q <= |path| && (q < |path| ==> path[q] != SLASH)
    decreases |path| - p
  {
    if p < |path| && path[p] == SLASH then SkipSlashes(path, p + 1) else p
  }

  /** The next slash at or after `p`, or the end. */
  function NextSlash(path: bytes, p: nat): (q: nat)
    requires p <= |path|
    ensures p <= q <= |path| && SLASH !in path[p..q] && (q < |path| ==> path[q] == SLASH)
    decreases |path| - p
  {
    if p == |path| || path[p] == SLASH then p else
    var q := NextSlash(path, p + 1);
    assert path[p..q] == [path[p]] + path[p + 1..q];
    q
  }

  lemma {:induction false} NextSlashIs(path: bytes, p: nat, q: nat)
    requires p <= q <= |path| && SLASH !in path[p..q] && (q == |path| || path[q] == SLASH)
    ensures NextSlash(path, p) == q
    decreases q - p
  {
    if p < q {
      assert path[p] in path[p..q];
      assert path[p + 1..q] == path[p..q][1..];
      NextSlashIs(path, p + 1, q);
    }
  }

  // ---------------------------------------------------------------- the components of a file path

  /** A component cut to the `size` characters that its buffer holds. */
  function CutTo(name: bytes, size: nat): (r: bytes)
    ensures |r| <= size && r <= name
  {
    if |name| > size then name[..size] else name
  }

  /** The components of `path` from position `p`, each cut to `size` characters. */
  function Split(path: bytes, p: nat, size: nat): (comps: seq<bytes>)
    requires p <= |path|
    decreases |path| - p
  {
    var q := SkipSlashes(path, p);
    if q == |path| then [] else
    var e := NextSlash(path, q);
    assert e > q;
    [CutTo(path[q..e], size)] + Split(path, e, size)
  }

  /** All but the last: the directories of a file path. */
  function Front(names: seq<bytes>): (f: seq<bytes>) { if names == [] then [] else names[..|names| - 1] }

  /** `skip_drive_prefix`: where the components start. */
  function PathStart(path: bytes): (p: nat)
    ensures p <= |path|
  {
    SkipSlashes(path, if |path| >= 2 && path[1] == COLON then 2 else 0)
  }

  /** `get_component`, for a buffer of `size` characters and the terminator. */
  method GetComponent(path: bytes, start: nat, size: nat) returns (more: bool, p: nat, out: bytes)
    requires start <= |path|
    ensures p <= |path| && more == (Split(path, start, size) != [])
    ensures more ==> out == Split(path, start, size)[0] && Split(path, p, size) == Split(path, start, size)[1..]
    ensures more ==> p > start
  {
    p := start;
    out := [];
    while p < |path| && path[p] == SLASH
      invariant start <= p <= |path| && SkipSlashes(path, start) == SkipSlashes(path, p)
    {
      p := p + 1;
    }
    if p == |path| {
      return false, p, out;
    }
    ghost var q := p;
    while p < |path| && path[p] != SLASH
      invariant q <= p <= |path| && NextSlash(path, q) == NextSlash(path, p) && out == CutTo(path[q..p], size)
    {
      if |out| < size {
        out := out + [path[p]];
      }
      assert path[q..p + 1] == path[q..p] + [path[p]];
      p := p + 1;
    }
    more := true;
  }

  /** `path_has_more`. */
  method PathHasMore(path: bytes, start: nat, ghost size: nat) returns (more: bool)
    requires start <= |path|
    ensures more == (Split(path, start, size) != [])
  {
    var p := start;
    while p < |path| && path[p] == SLASH
      invariant start <= p <= |path| && SkipSlashes(path, start) == SkipSlashes(path, p)
    {
      p := p + 1;
    }
    return p < |path|;
  }

  /** `skip_drive_prefix`. */
  method SkipDrivePrefix(path: bytes) returns (p: nat)
    ensures p == PathStart(path)
  {
    p := 0;
    if |path| >= 2 && path[1] == COLON {
      p := 2;
    }
    ghost var start := p;
    while p < |path| && path[p] == SLASH
      invariant start <= p <= |path| && SkipSlashes(path, start) == SkipSlashes(path, p)
    {
      p := p + 1;
    }
  }
}
