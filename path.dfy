/**
 * Path handling of the boot loader (boot/core/path.c).
 *
 * A path is "[filesystem:]element/element/...".  C strings are modelled by their characters
 * before the terminating NUL, so a path is a `seq<char>` without '\0'; reading the byte at the
 * end of a string reads the terminator.  Buffers the functions write into are arrays.
 */
module Path {
  import opened Common

  /** FILENAME_MAX of the C library: the size of an iterator's element buffer. */
  const FILENAME_MAX: nat := 256

  /** A C string's characters: no NUL before the end. */
  predicate NoNul(s: seq<char>)
  {
    forall k :: 0 <= k < |s| ==> s[k] != '\0'
  }

  /** `strchr` from position `from`: the first `c` at or after it, or |s| when there is none. */
  function Find(s: seq<char>, from: nat, c: char): (r: nat)
    requires from <= |s|
    ensures from <= r <= |s|
    ensures r < |s| ==> s[r] == c
    ensures forall k :: from <= k < r ==> s[k] != c
    decreases |s| - from
  {
    if from == |s| || s[from] == c then from else Find(s, from + 1, c)
  }

  /** An element copied into the iterator's buffer: at most FILENAME_MAX - 1 characters. */
  function Truncated(s: seq<char>): (r: seq<char>)
    ensures |r| < FILENAME_MAX && r <= s
    ensures |s| < FILENAME_MAX ==> r == s
    ensures forall c :: c in r ==> c in s
  {
    if |s| >= FILENAME_MAX then s[..FILENAME_MAX - 1] else s
  }

  // ---------------------------------------------------------------------------------------------
  // The iterator

  /**
   * Where `path_iter_init` leaves the cursor and the element: after the first ':' with the text
   * before it, or at the start with an empty element when there is no ':'.
   */
  function Start(path: seq<char>): (r: (nat, seq<char>))
    ensures r.0 <= |path| && |r.1| < FILENAME_MAX
    ensures r.0 == 0 ==> r.1 == [] && (':' in path ==> path[0] == ':')
    ensures r.0 > 0 ==>
      path[r.0 - 1] == ':' && ':' !in path[..r.0 - 1] && r.1 == Truncated(path[..r.0 - 1])
    ensures ':' !in path ==> r.0 == 0
  {
    var colon := Find(path, 0, ':');
    if colon < |path| then (colon + 1, Truncated(path[..colon])) else (0, [])
  }

  /** One step of the iterator, as `path_iter_next` takes it. */
  datatype Step = Step(hasSeparator: bool, element: seq<char>, cursor: nat, atEnd: bool)

  /**
   * The step `path_iter_next` takes from `cursor`: an optional '/', then the segment up to the
   * next '/' or the end, whose first FILENAME_MAX - 1 characters become the element.  The cursor
   * stops on that '/' (so it always moves unless it is at the end), and the step is the last one
   * exactly when the cursor has reached the end.
   */
  function NextStep(path: seq<char>, cursor: nat): (r: Step)
    requires cursor <= |path|
    ensures cursor <= r.cursor <= |path|
    ensures r.atEnd <==> r.cursor == |path|
    ensures !r.atEnd ==> cursor < r.cursor && path[r.cursor] == '/'
    ensures r.hasSeparator <==> cursor < |path| && path[cursor] == '/'
    ensures '/' !in r.element
    ensures NoNul(path) ==> NoNul(r.element)
    ensures var p := cursor + (if r.hasSeparator then 1 else 0);
      p <= r.cursor && '/' !in path[p..r.cursor] && r.element == Truncated(path[p..r.cursor])
  {
    var sep := cursor < |path| && path[cursor] == '/';
    var p := if sep then cursor + 1 else cursor;
    if p == |path| then Step(sep, [], p, true)
    else
      var end := Find(path, p, '/');
      Step(sep, Truncated(path[p..end]), end, end == |path|)
  }

  /** `struct path_iterator`. */
  class Iterator {
    var path: seq<char>
    var cursor: nat
    var element: seq<char>
    var hasSeparator: bool

    ghost predicate Valid()
      reads this
    {
      cursor <= |path| && |element| < FILENAME_MAX
    }

    /** `path_iter_init`. */
    constructor (path: seq<char>)
      ensures Valid() && this.path == path && !hasSeparator
      ensures (cursor, element) == Start(path)
    {
      this.path := path;
      this.cursor := 0;
      this.hasSeparator := false;
      var colon := Find(path, 0, ':');
      if colon < |path| {
        var len := colon;
        if len >= FILENAME_MAX {
          len := FILENAME_MAX - 1;
        }
        this.element := path[..len];
        this.cursor := colon + 1;
        assert path[..len] == Truncated(path[..colon]);
      } else {
        this.element := [];
      }
    }

    /** `path_iter_next`: takes one step and answers whether the cursor reached the end. */
    method Next() returns (atEnd: bool)
      requires Valid()
      modifies this
      ensures Valid() && path == old(path)
      ensures Step(hasSeparator, element, cursor, atEnd) == NextStep(path, old(cursor))
    {
      var p := cursor;
      hasSeparator := p < |path| && path[p] == '/';
      if hasSeparator {
        p := p + 1;
      }
      if p == |path| {
        element := [];
        cursor := p;
        return true;
      }
      var slash := Find(path, p, '/');
      var len := slash - p;
      cursor := slash;
      if len >= FILENAME_MAX {
        len := FILENAME_MAX - 1;
      }
      element := path[p..p + len];
      atEnd := cursor == |path|;
      assert element == Truncated(path[p..slash]);
      NextStepAt(path, old(cursor), hasSeparator, p, slash);
    }
  }

  /** The step from `cursor` when a segment starts at p (after the optional '/') and ends at `slash`. */
  lemma NextStepAt(path: seq<char>, cursor: nat, sep: bool, p: nat, slash: nat)
    requires cursor <= |path| && sep == (cursor < |path| && path[cursor] == '/')
    requires p == cursor + (if sep then 1 else 0) && p < |path| && slash == Find(path, p, '/')
    ensures NextStep(path, cursor) == Step(sep, Truncated(path[p..slash]), slash, slash == |path|)
  {
  }

  /** No run of FILENAME_MAX characters without a '/': no element is truncated. */
  predicate ShortSegments(path: seq<char>)
  {
    forall i :: 0 <= i <= |path| ==> SegmentEnd(path, i) - i < FILENAME_MAX
  }

  /** Where the segment starting at i ends: the next '/' or the end of the path. */
  function SegmentEnd(path: seq<char>, i: nat): nat
    requires i <= |path|
  {
    Find(path, i, '/')
  }

  /** What the steps from `cursor` on give back: each separator and element, in order. */
  function Rebuild(path: seq<char>, cursor: nat): seq<char>
    requires cursor <= |path|
    decreases |path| - cursor
  {
    var s := NextStep(path, cursor);
    (if s.hasSeparator then "/" else "") + s.element + (if s.atEnd then "" else Rebuild(path, s.cursor))
  }

  /** Iterating from any cursor gives back the rest of the path when no element is truncated. */
  lemma {:induction false} RebuildRest(path: seq<char>, cursor: nat)
    requires cursor <= |path| && ShortSegments(path)
    ensures Rebuild(path, cursor) == path[cursor..]
    decreases |path| - cursor
  {
    var s := NextStep(path, cursor);
    var head := (if s.hasSeparator then "/" else "") + s.element;
    var tail := if s.atEnd then "" else Rebuild(path, s.cursor);
    assert Rebuild(path, cursor) == head + tail;
    StepIsSegment(path, cursor);
    if !s.atEnd {
      RebuildRest(path, s.cursor);
    }
    assert tail == path[s.cursor..];
    SuffixSplit(path, cursor, s.cursor);
  }

  /** Without truncation, one step reads exactly the separator and the element it yields. */
  lemma StepIsSegment(path: seq<char>, cursor: nat)
    requires cursor <= |path| && ShortSegments(path)
    ensures var s := NextStep(path, cursor);
      path[cursor..s.cursor] == (if s.hasSeparator then "/" else "") + s.element
  {
    var s := NextStep(path, cursor);
    var p := cursor + (if s.hasSeparator then 1 else 0);
    assert s.cursor - p < FILENAME_MAX by {
      assert p < |path| ==> Find(path, p, '/') == s.cursor;
      assert SegmentEnd(path, p) - p < FILENAME_MAX;
    }
    assert path[cursor..s.cursor] == path[cursor..p] + path[p..s.cursor];
  }

  /**
   * Initialising an iterator and stepping it to the end visits the whole path: the filesystem
   * name and ':', then every separator and element, when no name is truncated.
   */
  lemma IterationRebuildsPath(path: seq<char>)
    requires ShortSegments(path)
    requires ':' in path ==> Find(path, 0, ':') < FILENAME_MAX
    ensures (if Start(path).0 > 0 then Start(path).1 + ":" else "") + Rebuild(path, Start(path).0) == path
  {
    var c := Start(path).0;
    var e := Start(path).1;
    RebuildRest(path, c);
    var rest := Rebuild(path, c);
    if c > 0 {
      assert Find(path, 0, ':') == c - 1;
      NameColonRest(path, c - 1, e, rest);
    } else {
      assert rest == path[0..] == path;
    }
  }

  lemma NameColonRest(path: seq<char>, k: nat, e: seq<char>, rest: seq<char>)
    requires k < |path| && path[k] == ':'
    requires e == path[..k] && rest == path[k + 1..]
    ensures e + ":" + rest == path
  {
    assert path == path[..k] + [path[k]] + path[k + 1..];
  }

  // ---------------------------------------------------------------------------------------------
  // path_is_absolute

  /** `path_is_absolute`. */
  function IsAbsolute(path: seq<char>): bool
  {
    if |path| > 0 && path[0] == '/' then true
    else
      var colon := Find(path, 0, ':');
      colon < |path| && (colon + 1 == |path| || path[colon + 1] == '/')
  }

  /**
   * A path is absolute exactly when it starts with '/', or its first ':' is followed by '/' or
   * ends the path.
   */
  lemma AbsoluteMeans(path: seq<char>)
    ensures IsAbsolute(path) <==>
      (|path| > 0 && path[0] == '/') ||
      exists k :: 0 <= k < |path| && path[k] == ':' && ':' !in path[..k] &&
        (k + 1 == |path| || path[k + 1] == '/')
  {
    var colon := Find(path, 0, ':');
    if colon < |path| {
      assert ':' !in path[..colon];
    }
  }

  /**
   * Seen through the iterator: where there is no ':' a path is absolute exactly when the first
   * step crosses a separator; after a ':' exactly when the first step crosses one or the path
   * ends at the ':'.
   */
  lemma AbsoluteByFirstStep(path: seq<char>)
    ensures ':' !in path ==> (IsAbsolute(path) <==> NextStep(path, 0).hasSeparator)
    ensures ':' in path && (|path| == 0 || path[0] != '/') ==>
      (IsAbsolute(path) <==> NextStep(path, Start(path).0).hasSeparator || Start(path).0 == |path|)
  {
    var colon := Find(path, 0, ':');
    if ':' !in path {
      assert colon == |path|;
    } else {
      assert Start(path).0 == colon + 1;
    }
  }

  // ---------------------------------------------------------------------------------------------
  // path_join

  /** `strnlen(s, n)`: the position of the first NUL among the first n characters, or n. */
  function StrNLen(s: seq<char>, n: nat): (r: nat)
    requires n <= |s|
    ensures r <= n && NoNul(s[..r]) && (r < n ==> s[r] == '\0')
  {
    Find(s[..n], 0, '\0')
  }

  /**
   * `path_join` as written: after the string in `dest` (NUL within `len`) come '/', then as much
   * of `src` as the count allows, then a NUL only if the count still allows one.  `len` is
   * decremented for every character written and compared with the original string length, so
   * when `src` fills the buffer no NUL is written at all.
   */
  function JoinSpec(dest: seq<char>, len: nat, src: seq<char>): (r: seq<char>)
    requires len <= |dest|
    ensures |r| == |dest| && r[len..] == dest[len..]
    ensures r[..StrNLen(dest, len)] == dest[..StrNLen(dest, len)]
  {
    var n := StrNLen(dest, len);
    if len <= n then dest
    else
      var k := if |src| < len - 1 - n then |src| else len - 1 - n;
      var written := "/" + src[..k] + (if n + 1 + k < len then "\0" else "");
      dest[..n] + written + dest[n + |written|..]
  }

  /** `path_join` over the buffer `dest` of which the first `len` characters may be used. */
  method Join(dest: array<char>, len: nat, src: seq<char>)
    requires len <= dest.Length && NoNul(src)
    modifies dest
    ensures dest[..] == JoinSpec(old(dest[..]), len, src)
  {
    ghost var d := dest[..];
    var n := Find(dest[..len], 0, '\0');
    assert n == StrNLen(d, len);
    var remaining := len;
    var cur := n;
    ghost var pre := d[..n];
    if remaining > n {
      Put(dest, cur, '/');
      cur := cur + 1;
      remaining := remaining - 1;
      pre := pre + "/";
    }
    var i;
    ghost var start, mid := cur, dest[..];
    cur, i := CopySource(dest, cur, len, remaining, n, src);
    assert mid[cur..] == mid[start..][cur - start..] && d[cur..] == d[start..][cur - start..];
    ghost var body := dest[..cur];
    if remaining - i > n {
      assert dest[cur + 1..] == dest[cur..][1..] && d[cur + 1..] == d[cur..][1..];
      Put(dest, cur, '\0');
      cur := cur + 1;
    }
    JoinWritten(d, len, src, n, i, cur, pre, body, dest[..]);
  }

  /**
   * The copying loop of `path_join`: characters of `src` go after `cur` while the remaining count
   * is above the string's length; the count drops by one per character.
   */
  method CopySource(dest: array<char>, cur: nat, len: nat, remaining: nat, n: nat, src: seq<char>)
    returns (cur': nat, i: nat)
    requires cur <= dest.Length && remaining <= len && cur + (remaining - n) <= dest.Length
    requires len > n ==> remaining == len - 1 && cur == n + 1
    requires len <= n ==> remaining == len
    modifies dest
    ensures i <= |src| && cur' == cur + i && i <= remaining
    ensures len > n ==> i == (if |src| < len - 1 - n then |src| else len - 1 - n)
    ensures len <= n ==> i == 0
    ensures dest[..cur'] == old(dest[..cur]) + src[..i]
    ensures dest[cur'..] == old(dest[cur'..])
  {
    ghost var d := dest[..];
    cur' := cur;
    var left := remaining;
    i := 0;
    while left > n && i < |src|
      invariant i <= |src| && cur' == cur + i && left == remaining - i && left >= 0
      invariant len > n ==> left >= n
      invariant len <= n ==> i == 0
      invariant dest[..cur'] == d[..cur] + src[..i]
      invariant dest[cur'..] == d[cur'..]
    {
      assert dest[cur' + 1..] == dest[cur'..][1..] && d[cur' + 1..] == d[cur'..][1..];
      Put(dest, cur', src[i]);
      assert src[..i + 1] == src[..i] + [src[i]];
      cur' := cur' + 1;
      i := i + 1;
      left := left - 1;
    }
  }

  /**
   * The buffer after `path_join`'s writes: the string, then '/' and the first i characters of
   * `src` and possibly a NUL, up to `cur`, and the old contents after it.
   */
  lemma JoinWritten(d: seq<char>, len: nat, src: seq<char>, n: nat, i: nat, cur: nat,
                    pre: seq<char>, body: seq<char>, r: seq<char>)
    requires len <= |d| && n == StrNLen(d, len) && i <= |src| && |r| == |d|
    requires pre == d[..n] + (if len > n then "/" else "") && body == pre + src[..i]
    requires len > n ==> i == (if |src| < len - 1 - n then |src| else len - 1 - n)
    requires len <= n ==> i == 0
    requires cur == |body| + (if len > n && n + 1 + i < len then 1 else 0) && cur <= |r|
    requires r[..cur] == body + (if len > n && n + 1 + i < len then "\0" else "")
    requires r[cur..] == d[cur..]
    ensures r == JoinSpec(d, len, src)
  {
    assert r == r[..cur] + r[cur..];
    if len <= n {
      assert d == d[..n] + d[n..];
      assert r == d;
    }
  }

  /** The C string in a buffer of `len` usable characters, or None if there is no NUL in it. */
  function CString(s: seq<char>, len: nat): (r: Option<seq<char>>)
    requires len <= |s|
    ensures r.Some? ==> NoNul(r.value) && |r.value| < len && s[|r.value|] == '\0'
  {
    var n := StrNLen(s, len);
    if n < len then Some(s[..n]) else None
  }

  /**
   * When the joined path fits with room for the terminator, `path_join` leaves the string `dest`
   * + "/" + `src`; and it never writes past `len`.
   */
  lemma JoinFits(dest: seq<char>, len: nat, src: seq<char>)
    requires len <= |dest| && NoNul(src) && CString(dest, len).Some?
    requires |CString(dest, len).value| + 1 + |src| < len
    ensures CString(JoinSpec(dest, len, src), len) == Some(CString(dest, len).value + "/" + src)
  {
    var r := JoinSpec(dest, len, src);
    var n := StrNLen(dest, len);
    var want := dest[..n] + "/" + src;
    assert r[..n + 1 + |src|] == want;
    assert r[n + 1 + |src|] == '\0';
    assert NoNul(want);
    assert Find(r[..len], 0, '\0') == n + 1 + |src| by {
      FindFirst(r[..len], n + 1 + |src|, '\0');
    }
  }

  /** The first occurrence is where `Find` from 0 stops. */
  lemma FindFirst(s: seq<char>, k: nat, c: char)
    requires k < |s| && s[k] == c && forall j :: 0 <= j < k ==> s[j] != c
    ensures Find(s, 0, c) == k
  {
  }

  /** The same buffer, `dest` "abc" in four characters with nothing to add: the NUL is lost. */
  lemma JoinLosesTerminator()
    ensures CString("abc\0", 4) == Some("abc")
    ensures JoinSpec("abc\0", 4, "") == "abc/"
    ensures CString(JoinSpec("abc\0", 4, ""), 4) == None
  {
    assert StrNLen("abc\0", 4) == 3 by {
      assert "abc\0"[..4] == "abc\0";
      FindFirst("abc\0", 3, '\0');
    }
    assert "abc\0"[..3] == "abc";
    assert JoinSpec("abc\0", 4, "") == "abc/";
    assert NoNul("abc/");
  }

  /**
   * `path_join` as its bounds check evidently intends: the separator and as much of `src` as
   * leaves room for the NUL, which is always written.
   */
  function JoinIntended(dest: seq<char>, len: nat, src: seq<char>): (r: seq<char>)
    requires len <= |dest|
    ensures |r| == |dest| && r[len..] == dest[len..]
  {
    var n := StrNLen(dest, len);
    if len <= n + 1 then dest
    else
      var k := if |src| < len - 2 - n then |src| else len - 2 - n;
      dest[..n] + "/" + src[..k] + "\0" + dest[n + 2 + k..]
  }

  /**
   * The intended join keeps the result a C string within `len`: the old string, then '/' and
   * the longest prefix of `src` that fits, when there is room for the '/' and the NUL; and it
   * agrees with `path_join` as written whenever everything fits.
   */
  lemma JoinIntendedTerminates(dest: seq<char>, len: nat, src: seq<char>)
    requires len <= |dest| && NoNul(src) && CString(dest, len).Some?
    ensures var d := CString(dest, len).value;
      var k := if |src| < len - 2 - |d| then |src| else len - 2 - |d|;
      CString(JoinIntended(dest, len, src), len) ==
        Some(if |d| + 1 < len then d + "/" + src[..k] else d)
    ensures |CString(dest, len).value| + 1 + |src| < len ==>
      JoinIntended(dest, len, src) == JoinSpec(dest, len, src)
  {
    JoinIntendedAgrees(dest, len, src);
    var d := CString(dest, len).value;
    var n := |d|;
    var r := JoinIntended(dest, len, src);
    if n + 1 < len {
      var k := if |src| < len - 2 - n then |src| else len - 2 - n;
      var want := d + "/" + src[..k];
      assert r[..n + 1 + k] == want;
      assert r[n + 1 + k] == '\0';
      assert NoNul(want);
      FindFirst(r[..len], n + 1 + k, '\0');
    } else {
      FindFirst(r[..len], n, '\0');
    }
  }

  /** Where everything fits, the intended join writes what `path_join` writes. */
  lemma JoinIntendedAgrees(dest: seq<char>, len: nat, src: seq<char>)
    requires len <= |dest|
    ensures StrNLen(dest, len) + 1 + |src| < len ==> JoinIntended(dest, len, src) == JoinSpec(dest, len, src)
  {
    var n := StrNLen(dest, len);
    if n + 1 + |src| < len {
      JoinSpecWithRoom(dest, len, src, n);
      JoinIntendedWithRoom(dest, len, src, n);
    }
  }

  /** With room for all of `src`, `path_join` writes '/', `src` and the NUL after the string. */
  lemma JoinSpecWithRoom(dest: seq<char>, len: nat, src: seq<char>, n: nat)
    requires len <= |dest| && n == StrNLen(dest, len) && n + 1 + |src| < len
    ensures JoinSpec(dest, len, src) == dest[..n] + "/" + src + "\0" + dest[n + 2 + |src|..]
  {
    assert src[..|src|] == src;
    var rest := dest[n + 2 + |src|..];
    assert JoinSpec(dest, len, src) == dest[..n] + ("/" + src + "\0") + rest;
    Regroup(dest[..n], "/", src, "\0", rest);
  }

  /** With room for all of `src`, the intended join writes '/', `src` and the NUL after the string. */
  lemma JoinIntendedWithRoom(dest: seq<char>, len: nat, src: seq<char>, n: nat)
    requires len <= |dest| && n == StrNLen(dest, len) && n + 1 + |src| < len
    ensures JoinIntended(dest, len, src) == dest[..n] + "/" + src + "\0" + dest[n + 2 + |src|..]
  {
    assert src[..|src|] == src;
  }

  lemma Regroup(a: seq<char>, b: seq<char>, c: seq<char>, d: seq<char>, e: seq<char>)
    ensures a + (b + c + d) + e == a + b + c + d + e
  {
  }

  // ---------------------------------------------------------------------------------------------
  // path_normalize

  /** The elements the iterator yields from `cursor` until it reports the end. */
  function Elements(path: seq<char>, cursor: nat): (r: seq<seq<char>>)
    requires cursor <= |path|
    ensures |r| >= 1 && r[0] == NextStep(path, cursor).element
    decreases |path| - cursor
  {
    var s := NextStep(path, cursor);
    [s.element] + (if s.atEnd then [] else Elements(path, s.cursor))
  }

  /** Elements `path_normalize` skips: empty ones (from "//" or a trailing '/') and ".". */
  predicate Skipped(e: seq<char>)
  {
    e == [] || e == "."
  }

  /** The elements `path_normalize` writes, when there is no "..": the others, in order. */
  function Kept(es: seq<seq<char>>): (r: seq<seq<char>>)
    ensures |r| <= |es|
    decreases |es|
  {
    if es == [] then []
    else Kept(es[..|es| - 1]) + (if Skipped(es[|es| - 1]) then [] else [es[|es| - 1]])
  }

  /** An element is kept exactly when it occurs and is neither empty nor ".". */
  lemma {:induction false} KeptIsFilter(es: seq<seq<char>>, e: seq<char>)
    ensures e in Kept(es) <==> e in es && !Skipped(e)
    decreases |es|
  {
    if es != [] {
      var init := es[..|es| - 1];
      KeptIsFilter(init, e);
      assert es == init + [es[|es| - 1]];
    }
  }

  /** Filtering a concatenation filters each part. */
  lemma {:induction false} KeptAppend(a: seq<seq<char>>, b: seq<seq<char>>)
    ensures Kept(a + b) == Kept(a) + Kept(b)
    decreases |b|
  {
    if b != [] {
      var b' := b[..|b| - 1];
      KeptAppend(a, b');
      assert (a + b)[..|a + b| - 1] == a + b';
    } else {
      assert a + b == a;
    }
  }

  /** Elements joined with '/'. */
  function JoinSlash(es: seq<seq<char>>): (r: seq<char>)
    decreases |es|
  {
    if es == [] then []
    else if |es| == 1 then es[0]
    else JoinSlash(es[..|es| - 1]) + "/" + es[|es| - 1]
  }

  /** The elements of a path, none of which holds a '/'. */
  predicate Plain(es: seq<seq<char>>)
  {
    forall i :: 0 <= i < |es| ==> '/' !in es[i]
  }

  lemma {:induction false} ElementsPlain(path: seq<char>, cursor: nat)
    requires cursor <= |path|
    ensures Plain(Elements(path, cursor))
    decreases |path| - cursor
  {
    var s := NextStep(path, cursor);
    if !s.atEnd {
      ElementsPlain(path, s.cursor);
    }
  }

  /**
   * What `path_normalize` has written after some elements, seen as elements: the names it holds
   * and whether a '/' follows the last of them (the one a ".." leaves when it removes the
   * element after it).
   */
  datatype Stack = Stack(elems: seq<seq<char>>, trailing: bool)

  /**
   * The ".." step.  For an absolute path, or a relative one with a filesystem name, the last
   * element goes (the '/' before it stays when another element remains); with nothing to remove
   * an absolute path stays at its root and a relative one gets "..".  A relative path without a
   * filesystem name gets ".." appended.
   */
  function Up(absolute: bool, fs: bool, st: Stack): Stack
  {
    if !absolute && !fs then Stack(st.elems + [".."], false)
    else if st.elems == [] then (if absolute then Stack([], false) else Stack([".."], false))
    else Stack(st.elems[..|st.elems| - 1], |st.elems| > 1)
  }

  /** One element: skipped when empty or ".", the ".." step, or appended. */
  function Visit(absolute: bool, fs: bool, st: Stack, e: seq<char>): Stack
  {
    if Skipped(e) then st
    else if e == ".." then Up(absolute, fs, st)
    else Stack(st.elems + [e], false)
  }

  /** The elements `es` visited in order from `st`. */
  function Fold(absolute: bool, fs: bool, st: Stack, es: seq<seq<char>>): Stack
    decreases |es|
  {
    if es == [] then st else Fold(absolute, fs, Visit(absolute, fs, st, es[0]), es[1..])
  }

  /**
   * The '/' before the first element: always for an absolute path; after a filesystem name
   * unless the first element is "..".
   */
  function Lead(absolute: bool, fs: bool, elems: seq<seq<char>>): seq<char>
  {
    if absolute || (fs && elems != [] && elems[0] != "..") then "/" else ""
  }

  /** The characters `path_normalize` has written for a stack, after the filesystem part. */
  function Render(fsPart: seq<char>, absolute: bool, fs: bool, st: Stack): seq<char>
  {
    fsPart + Lead(absolute, fs, st.elems) + JoinSlash(st.elems) + (if st.trailing then "/" else "")
  }

  /** The result once the loop has left `st`: without the trailing '/', and "." for nothing. */
  function Closed(fsPart: seq<char>, absolute: bool, fs: bool, st: Stack): seq<char>
  {
    var r := Render(fsPart, absolute, fs, st.(trailing := false));
    if r == [] then "." else r
  }

  /** The filesystem part of the output: the name and ':', when the name is not empty. */
  function FsPart(src: seq<char>): seq<char>
  {
    if Start(src).1 != [] then Start(src).1 + ":" else ""
  }

  /** The stack after all elements of `src`. */
  function Final(src: seq<char>): Stack
  {
    var c := Start(src).0;
    Fold(NextStep(src, c).hasSeparator, Start(src).1 != [], Stack([], false), Elements(src, c))
  }

  /**
   * The normal form `path_normalize` gives: the filesystem name and ':', then the elements left
   * once empty and "." ones are skipped and each ".." has taken its step, joined by '/', with a
   * leading '/' for an absolute path or after a filesystem name; "." for a relative path left
   * empty.
   */
  function Normalized(src: seq<char>): (r: seq<char>)
    ensures r != []
  {
    Closed(FsPart(src), NextStep(src, Start(src).0).hasSeparator, Start(src).1 != [], Final(src))
  }

  /**
   * The normal form and every stack on the way to it from `st` through `es` are written with
   * two characters to spare within `len`.
   */
  predicate FitsFrom(fsPart: seq<char>, absolute: bool, fs: bool, st: Stack, es: seq<seq<char>>, len: nat)
    decreases |es|
  {
    |Render(fsPart, absolute, fs, st)| + 2 <= len &&
    (es != [] ==> FitsFrom(fsPart, absolute, fs, Visit(absolute, fs, st, es[0]), es[1..], len))
  }

  /** Everything `path_normalize` writes for `src` fits `len` with two characters to spare. */
  predicate Fits(src: seq<char>, len: nat)
  {
    var c := Start(src).0;
    FitsFrom(FsPart(src), NextStep(src, c).hasSeparator, Start(src).1 != [], Stack([], false), Elements(src, c), len)
  }

  /** A filesystem part: a name and ':' with a filesystem, nothing without one. */
  predicate FsShaped(fsPart: seq<char>, fs: bool)
  {
    if fs then |fsPart| > 0 && fsPart[|fsPart| - 1] == ':' else fsPart == []
  }

  /**
   * A stack `path_normalize` can reach: non-empty elements without '/', and a trailing '/' only
   * after an element of an absolute path or one with a filesystem name.
   */
  predicate Sound(absolute: bool, fs: bool, st: Stack)
  {
    (forall i :: 0 <= i < |st.elems| ==> st.elems[i] != [] && '/' !in st.elems[i]) &&
    (st.trailing ==> st.elems != [] && (absolute || fs))
  }

  /** Visiting a plain element keeps a stack sound. */
  lemma VisitSound(absolute: bool, fs: bool, st: Stack, e: seq<char>)
    requires Sound(absolute, fs, st) && '/' !in e
    ensures Sound(absolute, fs, Visit(absolute, fs, st, e))
  {
    if !Skipped(e) && e == ".." {
      assert ".."[0] == '.';
    }
  }

  /** Folding plain elements keeps a stack sound. */
  lemma {:induction false} FoldSound(absolute: bool, fs: bool, st: Stack, es: seq<seq<char>>)
    requires Sound(absolute, fs, st) && Plain(es)
    ensures Sound(absolute, fs, Fold(absolute, fs, st, es))
    decreases |es|
  {
    if es != [] {
      VisitSound(absolute, fs, st, es[0]);
      FoldSound(absolute, fs, Visit(absolute, fs, st, es[0]), es[1..]);
    }
  }

  /** Folding one element and then the rest. */
  lemma FoldCons(absolute: bool, fs: bool, st: Stack, e: seq<char>, rest: seq<seq<char>>, len: nat,
                 fsPart: seq<char>)
    ensures Fold(absolute, fs, st, [e] + rest) == Fold(absolute, fs, Visit(absolute, fs, st, e), rest)
    ensures FitsFrom(fsPart, absolute, fs, st, [e] + rest, len) ==>
      FitsFrom(fsPart, absolute, fs, Visit(absolute, fs, st, e), rest, len)
  {
    assert ([e] + rest)[1..] == rest;
  }

  /** Joined elements end with the last element. */
  lemma JoinSlashLast(es: seq<seq<char>>)
    requires es != [] && es[|es| - 1] != []
    ensures |JoinSlash(es)| > 0 && JoinSlash(es)[|JoinSlash(es)| - 1] == es[|es| - 1][|es[|es| - 1]| - 1]
  {
  }

  /** Joining one more element. */
  lemma JoinSlashSnoc(es: seq<seq<char>>, e: seq<char>)
    ensures JoinSlash(es + [e]) == if es == [] then e else JoinSlash(es) + "/" + e
  {
    assert (es + [e])[..|es|] == es;
  }

  /**
   * What comes before the last element of a stack as written: the filesystem part, the leading
   * '/', and the other elements each followed by '/'.
   */
  function Before(fsPart: seq<char>, absolute: bool, fs: bool, elems: seq<seq<char>>): seq<char>
    requires elems != []
  {
    var n := |elems|;
    fsPart + Lead(absolute, fs, elems) + (if n > 1 then JoinSlash(elems[..n - 1]) + "/" else "")
  }

  /** A stack with elements as written: what comes before its last element, the element, the trailing '/'. */
  lemma RenderLast(fsPart: seq<char>, absolute: bool, fs: bool, st: Stack)
    requires st.elems != []
    ensures var n := |st.elems|;
      Render(fsPart, absolute, fs, st) ==
        Before(fsPart, absolute, fs, st.elems) + st.elems[n - 1] + (if st.trailing then "/" else "")
    ensures |st.elems| > 1 ==>
      Before(fsPart, absolute, fs, st.elems) == Render(fsPart, absolute, fs, Stack(st.elems[..|st.elems| - 1], true))
  {
    var n := |st.elems|;
    JoinSlashSnoc(st.elems[..n - 1], st.elems[n - 1]);
    assert st.elems[..n - 1] + [st.elems[n - 1]] == st.elems;
  }

  /** Written with an element, a stack is longer than the filesystem part. */
  lemma RenderLonger(fsPart: seq<char>, absolute: bool, fs: bool, st: Stack)
    requires Sound(absolute, fs, st)
    ensures st.elems != [] ==> |Render(fsPart, absolute, fs, st)| > |fsPart|
  {
    if st.elems != [] {
      RenderLast(fsPart, absolute, fs, st);
    }
  }

  /**
   * Appending a plain element other than "..": the '/' that `path_normalize` writes exactly when
   * the output is not empty and does not end in '/' is the one the stack's form has before it.
   */
  lemma AppendRender(fsPart: seq<char>, absolute: bool, fs: bool, st: Stack, e: seq<char>)
    requires FsShaped(fsPart, fs) && Sound(absolute, fs, st)
    requires e != [] && '/' !in e && e != ".."
    ensures Render(fsPart, absolute, fs, Stack(st.elems + [e], false)) == Appended(Render(fsPart, absolute, fs, st), e)
  {
    JoinSlashSnoc(st.elems, e);
    if st.elems == [] {
      AppendFirst(fsPart, absolute, fs, st, e);
    } else {
      AppendNext(fsPart, absolute, fs, st, e);
    }
  }

  /** The first element appended: after the root '/', after the ':' with a '/', or alone. */
  lemma AppendFirst(fsPart: seq<char>, absolute: bool, fs: bool, st: Stack, e: seq<char>)
    requires FsShaped(fsPart, fs) && st == Stack([], false) && e != ".."
    ensures Render(fsPart, absolute, fs, Stack([e], false)) == Appended(Render(fsPart, absolute, fs, st), e)
  {
    assert JoinSlash([e]) == e;
    assert Lead(absolute, fs, [e]) == if absolute || fs then "/" else "";
  }

  /** A later element appended: after the trailing '/' when there is one, else after a '/'. */
  lemma AppendNext(fsPart: seq<char>, absolute: bool, fs: bool, st: Stack, e: seq<char>)
    requires Sound(absolute, fs, st) && st.elems != []
    requires JoinSlash(st.elems + [e]) == JoinSlash(st.elems) + "/" + e
    ensures Render(fsPart, absolute, fs, Stack(st.elems + [e], false)) == Appended(Render(fsPart, absolute, fs, st), e)
  {
    var n := |st.elems|;
    var x := st.elems[n - 1];
    assert x != [] && '/' !in x;
    JoinSlashLast(st.elems);
    assert x[|x| - 1] in x;
    assert (st.elems + [e])[0] == st.elems[0];
    var lead := Lead(absolute, fs, st.elems);
    assert Lead(absolute, fs, st.elems + [e]) == lead;
    var j := JoinSlash(st.elems);
    if st.trailing {
      assert Render(fsPart, absolute, fs, st) == fsPart + lead + j + "/";
    } else {
      assert Render(fsPart, absolute, fs, st) == fsPart + lead + j;
    }
  }

  /** `strcpy(dest + at, s)`: the characters of `s` and a NUL. */
  method StrCpy(dest: array<char>, at: nat, s: seq<char>)
    requires at + |s| < dest.Length
    modifies dest
    ensures dest[..] == old(dest[..])[..at] + s + "\0" + old(dest[..])[at + |s| + 1..]
  {
    ghost var d := dest[..];
    var i := 0;
    while i < |s|
      invariant i <= |s|
      invariant forall k :: 0 <= k < dest.Length ==> dest[k] == if at <= k < at + i then s[k - at] else d[k]
    {
      dest[at + i] := s[i];
      i := i + 1;
    }
    dest[at + |s|] := '\0';
    ghost var want := d[..at] + s + "\0" + d[at + |s| + 1..];
    assert forall k :: 0 <= k < dest.Length ==> dest[k] == want[k];
    assert dest[..] == want;
  }

  /** `out` with the element `e` appended: after a '/' unless `out` is empty or ends in one. */
  function Appended(out: seq<char>, e: seq<char>): seq<char>
  {
    out + (if |out| > 0 && out[|out| - 1] != '/' then "/" else "") + e
  }

  /**
   * The non-"..", non-skipped element step of `path_normalize`: a '/' unless the output is empty
   * or already ends in one (and only while below the last position), then the element with its
   * NUL if it fits before the last position.
   */
  method AppendElement(dest: array<char>, len: nat, w: nat, e: seq<char>, ghost out: seq<char>)
    returns (w': nat)
    requires 1 <= len <= dest.Length && w <= len - 1 && NoNul(e) && out == dest[..w]
    modifies dest
    ensures w <= w' <= len - 1
    ensures dest[..w] == out && dest[len - 1..] == old(dest[len - 1..])
    ensures NoNul(out) ==> NoNul(dest[..w'])
    ensures |Appended(out, e)| < len - 1 ==> dest[..w'] == Appended(out, e)
  {
    w' := w;
    if w' > 0 && dest[w' - 1] != '/' && w' < len - 1 {
      dest[w'] := '/';
      w' := w' + 1;
    }
    ghost var mid := dest[..];
    assert mid[len - 1..] == old(dest[len - 1..]);
    if w' + |e| < len - 1 {
      StrCpy(dest, w', e);
      assert dest[..w' + |e|] == mid[..w'] + e;
      assert dest[len - 1..] == mid[len - 1..] by {
        assert forall k :: len - 1 <= k < dest.Length ==> dest[k] == mid[k];
      }
      w' := w' + |e|;
    }
  }

  /** Where the filesystem part sits: a name whose ':' is at `colon`, or nothing. */
  predicate Placed(fsPart: seq<char>, fs: bool, colon: nat)
  {
    FsShaped(fsPart, fs) && (fs ==> |fsPart| == colon + 1)
  }

  /**
   * The ".." step of `path_normalize`.  `colon` is where the filesystem name's ':' sits in
   * `dest` (what `strchr(dest, ':')` finds there).  On the output for a stack `st` it leaves the
   * output for `Up(st)`.
   */
  method DotDot(dest: array<char>, len: nat, w: nat, absolute: bool, fs: bool, colon: nat,
                ghost fsPart: seq<char>, ghost st: Stack, ghost canon: bool)
    returns (w': nat)
    requires 1 <= len <= dest.Length && w <= len - 1 && NoNul(dest[..w])
    requires fs ==> colon + 1 <= w
    requires canon ==>
      Placed(fsPart, fs, colon) && Sound(absolute, fs, st) && dest[..w] == Render(fsPart, absolute, fs, st) &&
      |Render(fsPart, absolute, fs, Up(absolute, fs, st))| + 2 <= len
    modifies dest
    ensures w' <= len - 1 && NoNul(dest[..w'])
    ensures fs ==> colon + 1 <= w' && dest[..colon + 1] == old(dest[..colon + 1])
    ensures dest[len - 1..] == old(dest[len - 1..])
    ensures canon ==> dest[..w'] == Render(fsPart, absolute, fs, Up(absolute, fs, st))
  {
    if absolute {
      w' := UpAbsolute(dest, len, w, fs, colon, fsPart, st, canon);
    } else if fs {
      w' := UpInFilesystem(dest, len, w, colon, fsPart, st, canon);
    } else {
      w' := UpRelative(dest, len, w, st, canon);
    }
  }

  /**
   * The backward scan of the ".." step: from the last character written, past one '/' there,
   * back to the previous '/', stopping at `floor`.
   */
  method ScanBack(dest: array<char>, w: nat, floor: nat) returns (last: int)
    requires floor < w <= dest.Length
    ensures -1 <= last < w
    ensures last > floor ==> dest[last] == '/'
    ensures forall k :: last < k < w - 1 ==> dest[k] != '/'
    ensures dest[w - 1] == '/' ==> last <= w - 2
    ensures last >= floor || (last == w - 1 && dest[w - 1] != '/') || (last == w - 2 && dest[w - 1] == '/')
  {
    var skip := dest[w - 1] == '/';
    last := w - 1;
    if skip {
      last := last - 1;
    }
    while last > floor && dest[last] != '/'
      invariant -1 <= last < w
      invariant forall k :: last < k < w - 1 ==> dest[k] != '/'
      invariant skip ==> last <= w - 2
      invariant last >= floor || (last == w - 1 && !skip) || (last == w - 2 && skip)
    {
      last := last - 1;
    }
  }

  /** What the scan establishes about the text it ran over. */
  predicate Scanned(text: seq<char>, floor: nat, last: int)
  {
    |text| > 0 && -1 <= last < |text| &&
    (last > floor ==> text[last] == '/') &&
    (forall k :: last < k < |text| - 1 ==> text[k] != '/') &&
    (text[|text| - 1] == '/' ==> last <= |text| - 2) &&
    (last >= floor || (last == |text| - 1 && text[|text| - 1] != '/') ||
     (last == |text| - 2 && text[|text| - 1] == '/'))
  }

  /**
   * Where the scan stops on `base`, a plain element and an optional '/': on the '/' that ends
   * `base` when that is at or above `floor`, and at `floor` when the element reaches down to it.
   */
  lemma ScanLands(text: seq<char>, base: seq<char>, x: seq<char>, trailing: bool, floor: nat, last: int)
    requires text == base + x + (if trailing then "/" else "") && x != [] && '/' !in x
    requires Scanned(text, floor, last)
    ensures |base| > 0 && base[|base| - 1] == '/' && |base| - 1 >= floor ==> last == |base| - 1
    ensures |base| <= floor < |base| + |x| ==> last == floor
  {
    assert forall k :: |base| <= k < |base| + |x| ==> text[k] == x[k - |base|];
    assert forall k :: |base| <= k < |base| + |x| ==> text[k] != '/' by {
      forall k | |base| <= k < |base| + |x| ensures text[k] != '/' {
        assert x[k - |base|] in x;
      }
    }
    if |base| > 0 && base[|base| - 1] == '/' && |base| - 1 >= floor {
      assert text[|base| - 1] == '/';
    }
  }

  /** The ".." step of an absolute path. */
  method UpAbsolute(dest: array<char>, len: nat, w: nat, fs: bool, colon: nat,
                    ghost fsPart: seq<char>, ghost st: Stack, ghost canon: bool)
    returns (w': nat)
    requires 1 <= len <= dest.Length && w <= len - 1 && NoNul(dest[..w])
    requires fs ==> colon + 1 <= w
    requires canon ==>
      Placed(fsPart, fs, colon) && Sound(true, fs, st) && dest[..w] == Render(fsPart, true, fs, st) &&
      |Render(fsPart, true, fs, Up(true, fs, st))| + 2 <= len
    modifies dest
    ensures w' <= len - 1 && NoNul(dest[..w'])
    ensures fs ==> colon + 1 <= w' && dest[..colon + 1] == old(dest[..colon + 1])
    ensures dest[len - 1..] == old(dest[len - 1..])
    ensures canon ==> dest[..w'] == Render(fsPart, true, fs, Up(true, fs, st))
  {
    w' := w;
    if w > 0 {
      var last := ScanBack(dest, w, 0);
      ghost var text := dest[..w];
      if canon {
        assert Scanned(text, 0, last);
        AbsoluteLands(fsPart, fs, colon, st, text, last);
      }
      if fs && last <= colon + 1 {
        assert dest[..colon + 1] == text[..colon + 1];
        w' := PutSlash(dest, len, colon + 1, fs, colon);
      } else if last <= 0 {
        w' := PutSlash(dest, len, 0, fs, colon);
      } else {
        w' := last + 1;
        assert dest[..w'] == text[..w'];
      }
    }
  }

  /**
   * The scan of an absolute path's ".." step lands where the stack's last element starts; the
   * root '/' (after the filesystem name, if any) is written again when nothing is left.
   */
  lemma AbsoluteLands(fsPart: seq<char>, fs: bool, colon: nat, st: Stack, text: seq<char>, last: int)
    requires Placed(fsPart, fs, colon) && Sound(true, fs, st) && text == Render(fsPart, true, fs, st)
    requires Scanned(text, 0, last)
    ensures fs && last <= colon + 1 ==> Render(fsPart, true, fs, Up(true, fs, st)) == text[..colon + 1] + "/"
    ensures !(fs && last <= colon + 1) && last <= 0 ==> !fs && Render(fsPart, true, fs, Up(true, fs, st)) == "/"
    ensures !(fs && last <= colon + 1) && last > 0 ==>
      last < |text| && Render(fsPart, true, fs, Up(true, fs, st)) == text[..last + 1]
  {
    if fs {
      assert text[..colon + 1] == fsPart;
    }
    if st.elems != [] {
      var n := |st.elems|;
      RenderLast(fsPart, true, fs, st);
      var base := Before(fsPart, true, fs, st.elems);
      ScanLands(text, base, st.elems[n - 1], st.trailing, 0, last);
      if n > 1 {
        assert text[..last + 1] == base;
      }
    }
  }

  /** The ".." step of a relative path with a filesystem name. */
  method UpInFilesystem(dest: array<char>, len: nat, w: nat, colon: nat,
                        ghost fsPart: seq<char>, ghost st: Stack, ghost canon: bool)
    returns (w': nat)
    requires 1 <= len <= dest.Length && w <= len - 1 && NoNul(dest[..w]) && colon + 1 <= w
    requires canon ==>
      Placed(fsPart, true, colon) && Sound(false, true, st) && dest[..w] == Render(fsPart, false, true, st) &&
      |Render(fsPart, false, true, Up(false, true, st))| + 2 <= len
    modifies dest
    ensures w' <= len - 1 && NoNul(dest[..w'])
    ensures colon + 1 <= w' && dest[..colon + 1] == old(dest[..colon + 1])
    ensures dest[len - 1..] == old(dest[len - 1..])
    ensures canon ==> dest[..w'] == Render(fsPart, false, true, Up(false, true, st))
  {
    ghost var text := dest[..w];
    if w > colon + 1 {
      var last := ScanBack(dest, w, colon + 1);
      if canon {
        assert Scanned(text, colon + 1, last);
        FilesystemLands(fsPart, colon, st, text, last);
      }
      if last <= colon + 1 {
        w' := colon + 1;
      } else {
        w' := last + 1;
      }
      assert dest[..w'] == text[..w'];
    } else {
      if canon {
        FilesystemEmpty(fsPart, colon, st, text);
      }
      w' := PutDots(dest, len, w, true, colon);
    }
  }

  /**
   * The scan of a relative ".." step after a filesystem name lands where the stack's last
   * element starts, or just after the ':' when that element is the first.
   */
  lemma FilesystemLands(fsPart: seq<char>, colon: nat, st: Stack, text: seq<char>, last: int)
    requires Placed(fsPart, true, colon) && Sound(false, true, st) && text == Render(fsPart, false, true, st)
    requires |text| > colon + 1 && Scanned(text, colon + 1, last)
    ensures last <= colon + 1 ==> Render(fsPart, false, true, Up(false, true, st)) == text[..colon + 1]
    ensures last > colon + 1 ==> last < |text| && Render(fsPart, false, true, Up(false, true, st)) == text[..last + 1]
  {
    assert text[..colon + 1] == fsPart;
    RenderLonger(fsPart, false, true, st);
    if st.elems != [] {
      var n := |st.elems|;
      RenderLast(fsPart, false, true, st);
      var base := Before(fsPart, false, true, st.elems);
      ScanLands(text, base, st.elems[n - 1], st.trailing, colon + 1, last);
      if n > 1 {
        assert st.elems[..n - 1] != [] && st.elems[0] != [];
        assert |JoinSlash(st.elems[..n - 1])| > 0 by {
          JoinSlashLast(st.elems[..n - 1]);
        }
        assert text[..last + 1] == base;
      }
    }
  }

  /** A relative ".." step after a filesystem name with no element to remove appends "..". */
  lemma FilesystemEmpty(fsPart: seq<char>, colon: nat, st: Stack, text: seq<char>)
    requires Placed(fsPart, true, colon) && Sound(false, true, st) && text == Render(fsPart, false, true, st)
    requires |text| <= colon + 1
    ensures Render(fsPart, false, true, Up(false, true, st)) == text + ".."
  {
    RenderLonger(fsPart, false, true, st);
  }

  /** The ".." step of a relative path without a filesystem name: "/.." or ".." appended. */
  method UpRelative(dest: array<char>, len: nat, w: nat, ghost st: Stack, ghost canon: bool)
    returns (w': nat)
    requires 1 <= len <= dest.Length && w <= len - 1 && NoNul(dest[..w])
    requires canon ==>
      Sound(false, false, st) && dest[..w] == Render([], false, false, st) &&
      |Render([], false, false, Up(false, false, st))| + 2 <= len
    modifies dest
    ensures w' <= len - 1 && NoNul(dest[..w'])
    ensures dest[len - 1..] == old(dest[len - 1..])
    ensures canon ==> dest[..w'] == Render([], false, false, Up(false, false, st))
  {
    ghost var text := dest[..w];
    if canon {
      RelativeUp(st, text);
    }
    w' := w;
    if w > 0 {
      w' := PutSlash(dest, len, w, false, 0);
    }
    w' := PutDots(dest, len, w', false, 0);
  }

  /** Without a filesystem name a relative ".." step appends "/.." to what is there, or "..". */
  lemma RelativeUp(st: Stack, text: seq<char>)
    requires Sound(false, false, st) && text == Render([], false, false, st)
    ensures Render([], false, false, Up(false, false, st)) == if text == [] then ".." else text + "/.."
  {
    JoinSlashSnoc(st.elems, "..");
    if st.elems != [] {
      JoinSlashLast(st.elems);
    }
  }

  /**
   * One element of the loop of `path_normalize`: skipped when empty or ".", the ".." step, or
   * appended; on the output for a stack it leaves the output for the visited stack.
   */
  method ProcessElement(dest: array<char>, len: nat, w: nat, e: seq<char>, absolute: bool, fs: bool,
                        colon: nat, ghost fsPart: seq<char>, ghost st: Stack, ghost canon: bool)
    returns (w': nat)
    requires 1 <= len <= dest.Length && w <= len - 1 && NoNul(dest[..w]) && NoNul(e) && '/' !in e
    requires fs ==> colon + 1 <= w
    requires canon ==>
      Placed(fsPart, fs, colon) && Sound(absolute, fs, st) && dest[..w] == Render(fsPart, absolute, fs, st) &&
      |Render(fsPart, absolute, fs, Visit(absolute, fs, st, e))| + 2 <= len
    modifies dest
    ensures w' <= len - 1 && NoNul(dest[..w'])
    ensures fs ==> colon + 1 <= w' && dest[..colon + 1] == old(dest[..colon + 1])
    ensures dest[len - 1..] == old(dest[len - 1..])
    ensures canon ==> dest[..w'] == Render(fsPart, absolute, fs, Visit(absolute, fs, st, e))
  {
    if e == [] || e == "." {
      return w;
    }
    if e == ".." {
      w' := DotDot(dest, len, w, absolute, fs, colon, fsPart, st, canon);
      return;
    }
    if canon {
      AppendRender(fsPart, absolute, fs, st, e);
    }
    w' := AppendElement(dest, len, w, e, dest[..w]);
    assert fs ==> dest[..colon + 1] == dest[..w][..colon + 1];
  }

  /** ".." appended at w when it leaves room before the last character. */
  method PutDots(dest: array<char>, len: nat, w: nat, fs: bool, colon: nat) returns (w': nat)
    requires 1 <= len <= dest.Length && w <= len - 1 && NoNul(dest[..w])
    requires fs ==> colon + 1 <= w
    modifies dest
    ensures w' <= len - 1 && NoNul(dest[..w'])
    ensures fs ==> colon + 1 <= w' && dest[..colon + 1] == old(dest[..colon + 1])
    ensures dest[..w] == old(dest[..w]) && dest[len - 1..] == old(dest[len - 1..])
    ensures w' == if w + 2 < len - 1 then w + 2 else w
    ensures w + 2 < len - 1 ==> dest[..w'] == old(dest[..w]) + ".."
  {
    w' := w;
    if w + 2 < len - 1 {
      dest[w] := '.';
      dest[w + 1] := '.';
      w' := w + 2;
      assert dest[..w'] == dest[..w] + "..";
      assert fs ==> dest[..colon + 1] == dest[..w][..colon + 1];
    }
  }


  /** Writes the leading '/' of an absolute path when there is room for it before the NUL. */
  method PutSlash(dest: array<char>, len: nat, w: nat, fs: bool, colon: nat) returns (w': nat)
    requires 1 <= len <= dest.Length && w <= len - 1 && NoNul(dest[..w])
    requires fs ==> colon + 1 <= w
    modifies dest
    ensures w' <= len - 1 && NoNul(dest[..w'])
    ensures fs ==> colon + 1 <= w' && dest[..colon + 1] == old(dest[..colon + 1])
    ensures dest[..w] == old(dest[..w]) && dest[len - 1..] == old(dest[len - 1..])
    ensures w < len - 1 ==> dest[..w'] == old(dest[..w]) + "/"
  {
    w' := w;
    if w < len - 1 {
      dest[w] := '/';
      w' := w + 1;
      assert dest[..w'] == dest[..w] + "/";
      assert fs ==> dest[..colon + 1] == dest[..w][..colon + 1];
    }
  }

  /**
   * The do-while loop of `path_normalize`: steps the iterator to the end, writing the '/' of an
   * absolute path on the first step and then each element.  When everything fits, the output
   * grows to the form of the stack all the elements leave.
   */
  method Walk(dest: array<char>, len: nat, it: Iterator, w0: nat, fs: bool, colon: nat,
              ghost fsPart: seq<char>, ghost canon: bool)
    returns (w: nat, absolute: bool)
    requires 1 <= len <= dest.Length && it.Valid() && NoNul(it.path)
    requires w0 <= len - 1 && NoNul(dest[..w0])
    requires fs ==> colon + 1 <= w0
    requires Placed(fsPart, fs, colon)
    requires canon ==>
      dest[..w0] == fsPart &&
      FitsFrom(fsPart, NextStep(it.path, it.cursor).hasSeparator, fs, Stack([], false), Elements(it.path, it.cursor), len)
    modifies dest, it
    ensures w <= len - 1 && NoNul(dest[..w])
    ensures fs ==> colon + 1 <= w && dest[..colon + 1] == old(dest[..colon + 1])
    ensures dest[len - 1..] == old(dest[len - 1..])
    ensures absolute == NextStep(old(it.path), old(it.cursor)).hasSeparator
    ensures var st := Fold(absolute, fs, Stack([], false), Elements(old(it.path), old(it.cursor)));
      Sound(absolute, fs, st) &&
      (canon ==> dest[..w] == Render(fsPart, absolute, fs, st) && |Render(fsPart, absolute, fs, st)| + 2 <= len)
  {
    ghost var src := it.path;
    ghost var all := Elements(src, it.cursor);
    ghost var abs0 := NextStep(src, it.cursor).hasSeparator;
    ghost var goal := Fold(abs0, fs, Stack([], false), all);
    w := w0;
    absolute := false;
    var first := true;
    var last := false;
    ghost var st := Stack([], false);
    ghost var rest := all;
    while !last
      invariant it.Valid() && it.path == src
      invariant w <= len - 1 && NoNul(dest[..w])
      invariant fs ==> colon + 1 <= w && dest[..colon + 1] == old(dest[..colon + 1])
      invariant dest[len - 1..] == old(dest[len - 1..])
      invariant first ==> st == Stack([], false) && !last && !absolute && abs0 == NextStep(src, it.cursor).hasSeparator
      invariant first && canon ==> dest[..w] == fsPart
      invariant !first ==> absolute == abs0
      invariant !last ==> rest == Elements(src, it.cursor)
      invariant last ==> rest == [] && !first
      invariant Fold(abs0, fs, st, rest) == goal && Sound(abs0, fs, st)
      invariant canon ==> FitsFrom(fsPart, abs0, fs, st, rest, len)
      invariant canon && !first ==> dest[..w] == Render(fsPart, absolute, fs, st)
      decreases if last then 0 else |src| - it.cursor + 1
    {
      w, absolute, last, st, rest := WalkStep(dest, len, it, w, first, absolute, fs, colon, fsPart, canon, st, abs0);
      first := false;
    }
  }

  /**
   * One pass of the do-while loop of `path_normalize`: one step of the iterator, the root '/' of
   * an absolute path on the first pass, then the element.  `st` is the stack so far; the
   * elements still to come, folded from the new stack, give what they gave from the old one.
   */
  method WalkStep(dest: array<char>, len: nat, it: Iterator, w: nat, first: bool, absolute: bool,
                  fs: bool, colon: nat, ghost fsPart: seq<char>, ghost canon: bool,
                  ghost st: Stack, ghost abs0: bool)
    returns (w': nat, absolute': bool, last: bool, ghost st': Stack, ghost rest': seq<seq<char>>)
    requires 1 <= len <= dest.Length && it.Valid() && NoNul(it.path)
    requires w <= len - 1 && NoNul(dest[..w])
    requires fs ==> colon + 1 <= w
    requires Placed(fsPart, fs, colon)
    requires first ==> st == Stack([], false) && !absolute && abs0 == NextStep(it.path, it.cursor).hasSeparator
    requires !first ==> absolute == abs0
    requires Sound(abs0, fs, st)
    requires canon ==> FitsFrom(fsPart, abs0, fs, st, Elements(it.path, it.cursor), len)
    requires canon && first ==> dest[..w] == fsPart
    requires canon && !first ==> dest[..w] == Render(fsPart, absolute, fs, st)
    modifies dest, it
    ensures it.Valid() && it.path == old(it.path)
    ensures w' <= len - 1 && NoNul(dest[..w'])
    ensures fs ==> colon + 1 <= w' && dest[..colon + 1] == old(dest[..colon + 1])
    ensures dest[len - 1..] == old(dest[len - 1..])
    ensures absolute' == abs0
    ensures rest' == if last then [] else Elements(it.path, it.cursor)
    ensures !last ==> old(it.cursor) < it.cursor
    ensures Fold(abs0, fs, st', rest') == Fold(abs0, fs, st, Elements(old(it.path), old(it.cursor)))
    ensures Sound(abs0, fs, st')
    ensures canon ==> FitsFrom(fsPart, abs0, fs, st', rest', len)
    ensures canon ==> dest[..w'] == Render(fsPart, absolute', fs, st')
  {
    ghost var es := Elements(it.path, it.cursor);
    var e;
    last, e, rest' := TakeStep(it);
    st' := Visit(abs0, fs, st, e);
    FoldCons(abs0, fs, st, e, rest', len, fsPart);
    VisitSound(abs0, fs, st, e);
    w', absolute' := w, absolute;
    if first {
      if it.hasSeparator {
        absolute' := true;
        w' := PutSlash(dest, len, w', fs, colon);
      }
      if canon {
        assert dest[..w'] == fsPart + (if absolute' then "/" else "");
        EmptyRender(fsPart, absolute', fs);
      }
    }
    assert absolute' == abs0;
    if canon {
      assert dest[..w'] == Render(fsPart, absolute', fs, st);
      assert |Render(fsPart, absolute', fs, st')| + 2 <= len;
    }
    w' := ProcessElement(dest, len, w', e, absolute', fs, colon, fsPart, st, canon);
  }

  /** The empty stack is written as the filesystem part and, for an absolute path, the root '/'. */
  lemma EmptyRender(fsPart: seq<char>, absolute: bool, fs: bool)
    ensures Render(fsPart, absolute, fs, Stack([], false)) == fsPart + (if absolute then "/" else "")
  {
  }

  /** `path_iter_next` seen from the loop: the element it yields and the elements left after it. */
  method TakeStep(it: Iterator) returns (last: bool, e: seq<char>, ghost rest: seq<seq<char>>)
    requires it.Valid() && NoNul(it.path)
    modifies it
    ensures it.Valid() && it.path == old(it.path) && e == it.element
    ensures it.hasSeparator == NextStep(old(it.path), old(it.cursor)).hasSeparator
    ensures '/' !in e && NoNul(e)
    ensures Elements(old(it.path), old(it.cursor)) == [e] + rest
    ensures rest == if last then [] else Elements(it.path, it.cursor)
    ensures !last ==> old(it.cursor) < it.cursor
  {
    ghost var src := it.path;
    ghost var before := it.cursor;
    last := it.Next();
    e := it.element;
    assert Step(it.hasSeparator, e, it.cursor, last) == NextStep(src, before);
    rest := if last then [] else Elements(src, it.cursor);
  }

  /**
   * The end of `path_normalize` on the characters `out` the loop wrote: "." for nothing without
   * a filesystem name, then a trailing '/' dropped unless it is the only character or the root
   * just after the filesystem name.
   */
  function Finished(out: seq<char>, fs: bool, colon: nat): seq<char>
  {
    var t := if !fs && out == [] then "." else out;
    if |t| > 1 && t[|t| - 1] == '/' && (!fs || |t| > colon + 2) then t[..|t| - 1] else t
  }

  /**
   * On a stack as written, the end of `path_normalize` drops exactly the trailing '/' that a
   * ".." left (never the root's) and writes "." exactly when nothing is there.
   */
  lemma FinishedRender(fsPart: seq<char>, absolute: bool, fs: bool, colon: nat, st: Stack)
    requires Placed(fsPart, fs, colon) && Sound(absolute, fs, st)
    ensures Finished(Render(fsPart, absolute, fs, st), fs, colon) == Closed(fsPart, absolute, fs, st)
  {
    var st0 := st.(trailing := false);
    var r := Render(fsPart, absolute, fs, st0);
    if st.elems != [] {
      var n := |st.elems|;
      var x := st.elems[n - 1];
      RenderLast(fsPart, absolute, fs, st0);
      assert x != [] && '/' !in x && x[|x| - 1] in x;
      assert r[|r| - 1] == x[|x| - 1];
      assert |r| >= |fsPart| + 1;
      if st.trailing {
        assert Render(fsPart, absolute, fs, st) == r + "/";
        assert (r + "/")[..|r|] == r;
      }
    }
  }

  /**
   * The end of `path_normalize`: "." for an empty relative result, a trailing '/' dropped unless
   * it is the root just after the filesystem name, and the NUL.  On the output for a stack this
   * is the stack's closed form.
   */
  method Finish(dest: array<char>, len: nat, w: nat, fs: bool, colon: nat, ghost fsPart: seq<char>,
                ghost absolute: bool, ghost st: Stack, ghost canon: bool)
    requires 1 <= len <= dest.Length && w <= len - 1 && NoNul(dest[..w])
    requires fs ==> colon + 1 <= w
    requires Placed(fsPart, fs, colon) && Sound(absolute, fs, st)
    requires canon ==>
      dest[..w] == Render(fsPart, absolute, fs, st) && |Render(fsPart, absolute, fs, st)| + 2 <= len
    modifies dest
    ensures dest[len..] == old(dest[len..])
    ensures CString(dest[..], len).Some?
    ensures canon ==> CString(dest[..], len) == Some(Closed(fsPart, absolute, fs, st))
  {
    ghost var out := dest[..w];
    var n := w;
    if !fs && n == 0 && len - 1 > 0 {
      dest[0] := '.';
      n := 1;
    }
    if n > 1 && dest[n - 1] == '/' {
      if !fs || n > colon + 2 {
        n := n - 1;
      }
    }
    ghost var text := dest[..n];
    if canon {
      assert text == Finished(out, fs, colon);
      FinishedRender(fsPart, absolute, fs, colon, st);
    }
    dest[n] := '\0';
    assert dest[..n] == text;
    assert dest[..][..len][..n] == text;
    FindFirst(dest[..][..len], n, '\0');
  }

  /**
   * The loop and the end of `path_normalize` after the filesystem name: a C string within `len`,
   * which, when everything fits, is the closed form of the stack the elements leave.
   */
  method WalkAndFinish(dest: array<char>, len: nat, it: Iterator, w0: nat, fs: bool, colon: nat,
                       ghost fsPart: seq<char>, ghost canon: bool)
    requires 1 <= len <= dest.Length && it.Valid() && NoNul(it.path)
    requires w0 <= len - 1 && NoNul(dest[..w0])
    requires fs ==> colon + 1 <= w0
    requires Placed(fsPart, fs, colon)
    requires canon ==>
      dest[..w0] == fsPart &&
      FitsFrom(fsPart, NextStep(it.path, it.cursor).hasSeparator, fs, Stack([], false), Elements(it.path, it.cursor), len)
    modifies dest, it
    ensures dest[len..] == old(dest[len..])
    ensures CString(dest[..], len).Some?
    ensures canon ==>
      var absolute := NextStep(old(it.path), old(it.cursor)).hasSeparator;
      CString(dest[..], len) ==
        Some(Closed(fsPart, absolute, fs, Fold(absolute, fs, Stack([], false), Elements(old(it.path), old(it.cursor)))))
  {
    ghost var beforeWalk := dest[..];
    ghost var es := Elements(it.path, it.cursor);
    var w, absolute := Walk(dest, len, it, w0, fs, colon, fsPart, canon);
    assert dest[len..] == dest[len - 1..][1..] == beforeWalk[len - 1..][1..];
    Finish(dest, len, w, fs, colon, fsPart, absolute, Fold(absolute, fs, Stack([], false), es), canon);
  }

  /** What fits leaves room for the filesystem name, its ':' and two characters more. */
  lemma FitsPrefix(src: seq<char>, len: nat)
    requires Fits(src, len)
    ensures |FsPart(src)| + 2 <= len
  {
  }

  /**
   * `path_normalize`: the normal form of `src` written into the first `len` characters of
   * `dest`, or false (NULL) when `len` is 0.  The output is always a C string within `len`, and
   * when everything written on the way fits with two characters to spare it is the normal form.
   */
  method Normalize(dest: array<char>, len: nat, src: seq<char>) returns (ok: bool)
    requires len <= dest.Length && NoNul(src)
    modifies dest
    ensures ok <==> len > 0
    ensures dest[len..] == old(dest[len..])
    ensures ok ==> CString(dest[..], len).Some?
    ensures ok && Fits(src, len) ==> CString(dest[..], len) == Some(Normalized(src))
  {
    if len == 0 {
      return false;
    }
    ok := true;
    var it := new Iterator(src);
    var fs := it.element != [];
    var w, colon, fits := WritePrefix(dest, len, it.element);
    if !fits {
      if Fits(src, len) {
        FitsPrefix(src, len);
      }
      return;
    }
    NormalizeElements(dest, len, it, w, fs, colon, src);
  }

  /** `path_normalize` once the filesystem name and ':' are in place at the start of `dest`. */
  method NormalizeElements(dest: array<char>, len: nat, it: Iterator, w: nat, fs: bool, colon: nat,
                           ghost src: seq<char>)
    requires 1 <= len <= dest.Length && NoNul(src)
    requires it.Valid() && it.path == src && (it.cursor, it.element) == Start(src)
    requires fs == (it.element != []) && w <= len - 1 && NoNul(dest[..w])
    requires dest[..w] == if fs then it.element + ":" else ""
    requires fs ==> colon == |it.element| && colon + 1 <= w
    modifies dest, it
    ensures dest[len..] == old(dest[len..])
    ensures CString(dest[..], len).Some?
    ensures Fits(src, len) ==> CString(dest[..], len) == Some(Normalized(src))
  {
    ghost var fsPart := FsPart(src);
    WalkAndFinish(dest, len, it, w, fs, colon, fsPart, Fits(src, len));
  }

  // ---------------------------------------------------------------------------------------------
  // Paths without ".."

  /** A path without ".." elements. */
  predicate DotDotFree(src: seq<char>)
  {
    forall e :: e in Elements(src, Start(src).0) ==> e != ".."
  }

  /** Elements without "..". */
  predicate NoDotDot(es: seq<seq<char>>)
  {
    forall i :: 0 <= i < |es| ==> es[i] != ".."
  }

  /** Without "..", the stack holds exactly the elements that are neither empty nor ".", in order. */
  lemma {:induction false} FoldWithoutDotDot(absolute: bool, fs: bool, kept: seq<seq<char>>, es: seq<seq<char>>)
    requires NoDotDot(es)
    ensures Fold(absolute, fs, Stack(kept, false), es) == Stack(kept + Kept(es), false)
    decreases |es|
  {
    if es != [] {
      var e := es[0];
      assert es == [e] + es[1..] && e != "..";
      KeptAppend([e], es[1..]);
      assert [e][..0] == [];
      assert Kept([e]) == if Skipped(e) then [] else [e];
      assert Visit(absolute, fs, Stack(kept, false), e) == Stack(kept + Kept([e]), false);
      assert NoDotDot(es[1..]) by {
        forall i | 0 <= i < |es[1..]| ensures es[1..][i] != ".." {
          assert es[1..][i] == es[i + 1];
        }
      }
      FoldWithoutDotDot(absolute, fs, kept + Kept([e]), es[1..]);
      assert kept + Kept([e]) + Kept(es[1..]) == kept + Kept(es);
    }
  }

  /**
   * Without "..", what is written never shrinks: from a sound stack without trailing '/', each
   * element leaves the output as long or longer.
   */
  lemma {:induction false} FoldGrows(fsPart: seq<char>, absolute: bool, fs: bool, st: Stack, es: seq<seq<char>>, len: nat)
    requires FsShaped(fsPart, fs) && Sound(absolute, fs, st) && !st.trailing && NoDotDot(es) && Plain(es)
    requires |Render(fsPart, absolute, fs, Fold(absolute, fs, st, es))| + 2 <= len
    ensures FitsFrom(fsPart, absolute, fs, st, es, len)
    decreases |es|
  {
    if es != [] {
      var e := es[0];
      var st' := Visit(absolute, fs, st, e);
      VisitSound(absolute, fs, st, e);
      assert e != "..";
      FoldGrows(fsPart, absolute, fs, st', es[1..], len);
      Grows(fsPart, absolute, fs, st', es[1..]);
      if !Skipped(e) {
        AppendRender(fsPart, absolute, fs, st, e);
      }
    }
  }

  /** Without "..", the final output is at least as long as the output at any stack on the way. */
  lemma {:induction false} Grows(fsPart: seq<char>, absolute: bool, fs: bool, st: Stack, es: seq<seq<char>>)
    requires FsShaped(fsPart, fs) && Sound(absolute, fs, st) && !st.trailing && NoDotDot(es) && Plain(es)
    ensures |Render(fsPart, absolute, fs, st)| <= |Render(fsPart, absolute, fs, Fold(absolute, fs, st, es))|
    ensures !Fold(absolute, fs, st, es).trailing
    decreases |es|
  {
    if es != [] {
      var e := es[0];
      VisitSound(absolute, fs, st, e);
      assert e != "..";
      Grows(fsPart, absolute, fs, Visit(absolute, fs, st, e), es[1..]);
      if !Skipped(e) {
        AppendRender(fsPart, absolute, fs, st, e);
      }
    }
  }

  /**
   * A path without ".." fits as soon as its normal form does with two characters to spare: the
   * output only grows towards it.
   */
  lemma FitsWithoutDotDot(src: seq<char>, len: nat)
    requires DotDotFree(src) && |Normalized(src)| + 2 <= len
    ensures Fits(src, len)
  {
    var c := Start(src).0;
    var es := Elements(src, c);
    var absolute := NextStep(src, c).hasSeparator;
    var fs := Start(src).1 != [];
    forall i | 0 <= i < |es| ensures es[i] != ".." {
      assert es[i] in es;
    }
    ElementsPlain(src, c);
    Grows(FsPart(src), absolute, fs, Stack([], false), es);
    FoldGrows(FsPart(src), absolute, fs, Stack([], false), es, len);
  }

  /** The elements of "/a/b/../c". */
  lemma ExampleElements(src: seq<char>)
    requires src == "/a/b/../c"
    ensures Start(src) == (0, []) && NextStep(src, 0).hasSeparator
    ensures Elements(src, 0) == ["a", "b", "..", "c"]
  {
    assert Find(src, 0, ':') == |src|;
    assert Find(src, 1, '/') == 2;
    assert NextStep(src, 0) == Step(true, "a", 2, false);
    assert Find(src, 3, '/') == 4;
    assert NextStep(src, 2) == Step(true, "b", 4, false);
    assert Find(src, 6, '/') == 7;
    assert src[5..7] == "..";
    assert NextStep(src, 4) == Step(true, "..", 7, false);
    assert Find(src, 8, '/') == 9;
    assert NextStep(src, 7) == Step(true, "c", 9, true);
    assert Elements(src, 7) == ["c"];
    assert Elements(src, 4) == ["..", "c"];
    assert Elements(src, 2) == ["b", "..", "c"];
  }

  /** ".." removes "b" and "c" takes its place. */
  lemma ExampleFold(es: seq<seq<char>>)
    requires es == ["a", "b", "..", "c"]
    ensures Fold(true, false, Stack([], false), es) == Stack(["a", "c"], false)
  {
    var s1 := Visit(true, false, Stack([], false), es[0]);
    assert s1 == Stack(["a"], false);
    var s2 := Visit(true, false, s1, es[1]);
    assert s2 == Stack(["a", "b"], false);
    var s3 := Visit(true, false, s2, es[2]);
    assert s3 == Stack(["a"], true);
    var s4 := Visit(true, false, s3, es[3]);
    assert s4 == Stack(["a", "c"], false);
    assert es[1..][1..][1..][1..] == [];
    assert Fold(true, false, s3, es[1..][1..][1..]) == s4;
    assert Fold(true, false, s2, es[1..][1..]) == s4;
    assert Fold(true, false, s1, es[1..]) == s4;
  }

  /** The stack of "/a/c" written out. */
  lemma ExampleClosed()
    ensures Closed([], true, false, Stack(["a", "c"], false)) == "/a/c"
  {
    assert JoinSlash(["a", "c"]) == "a/c";
  }

  /** "/a/b/../c" normalizes to "/a/c". */
  lemma DotDotExample(src: seq<char>)
    requires src == "/a/b/../c"
    ensures Normalized(src) == "/a/c"
  {
    ExampleElements(src);
    ExampleFold(Elements(src, 0));
    assert FsPart(src) == [] && Final(src) == Stack(["a", "c"], false);
    ExampleClosed();
  }

  /**
   * The filesystem name and ':' at the start of `dest`, or the empty string when they leave no
   * room before the last character.
   */
  method WriteFsName(dest: array<char>, len: nat, name: seq<char>) returns (w: nat, fits: bool)
    requires 1 <= len <= dest.Length && NoNul(name) && name != []
    modifies dest
    ensures fits <==> |name| + 1 < len - 1
    ensures fits ==> w == |name| + 1 && dest[..w] == name + ":" && dest[len - 1..] == old(dest[len - 1..])
    ensures !fits ==> CString(dest[..], len) == Some([]) && dest[len..] == old(dest[len..])
  {
    var n := |name|;
    if n + 1 >= len - 1 {
      dest[0] := '\0';
      FindFirst(dest[..][..len], 0, '\0');
      return 0, false;
    }
    StrCpy(dest, 0, name);
    dest[n] := ':';
    w, fits := n + 1, true;
    assert dest[..w] == dest[..n] + ":";
  }

  /** The filesystem part of `path_normalize`'s output, when the first element names one. */
  method WritePrefix(dest: array<char>, len: nat, name: seq<char>) returns (w: nat, colon: nat, fits: bool)
    requires 1 <= len <= dest.Length && NoNul(name)
    modifies dest
    ensures fits ==> w <= len - 1 && dest[..w] == (if name != [] then name + ":" else "")
    ensures fits ==> dest[len - 1..] == old(dest[len - 1..])
    ensures dest[len..] == old(dest[len..])
    ensures fits && name != [] ==> colon == |name| && colon + 1 <= w
    ensures !fits ==> name != [] && |name| + 1 >= len - 1
    ensures !fits ==> CString(dest[..], len) == Some([]) && dest[len..] == old(dest[len..])
  {
    w, colon, fits := 0, 0, true;
    if name != [] {
      w, fits := WriteFsName(dest, len, name);
      if fits {
        colon := w - 1;
        assert dest[len..] == dest[len - 1..][1..];
      }
    }
  }
}
