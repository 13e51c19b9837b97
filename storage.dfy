/**
 * The output folder and the two ways the scripts turn a URL into a path
 * under it.  The folder is a map from local path to file content; a
 * directory has no entry of its own.
 */
module Storage {
  import opened Text
  import opened Http

  /** `os.path.join(a, b)` on POSIX: an absolute `b` replaces `a`. */
  function PathJoin(a: string, b: string): string {
    if StartsWith(b, "/") then b
    else if a == [] || EndsWith(a, "/") then a + b
    else a + "/" + b
  }

  predicate Relative(p: string) {
    p == [] || p[0] != '/'
  }

  /**
   * A relative path is placed under `a`: the result is `a`, then a slash
   * only when `a` is non-empty and does not already end in one, then `b`.
   */
  lemma {:induction false} JoinUnder(a: string, b: string)
    requires Relative(b)
    ensures StartsWith(PathJoin(a, b), a) && EndsWith(PathJoin(a, b), b)
    ensures |PathJoin(a, b)| == |a| + |b| + (if a == [] || EndsWith(a, "/") then 0 else 1)
  {
    assert !StartsWith(b, "/") by {
      if b != [] {
        assert b[..1][0] == b[0];
      }
    }
    var r := PathJoin(a, b);
    if a == [] || EndsWith(a, "/") {
      assert r[..|a|] == a && r[|r| - |b|..] == b;
    } else {
      assert r[..|a|] == a && r[|r| - |b|..] == b;
    }
  }

  /** Under the same folder, two relative paths land on the same file only when they are equal. */
  lemma {:induction false} JoinInjective(a: string, x: string, y: string)
    requires Relative(x) && Relative(y)
    ensures PathJoin(a, x) == PathJoin(a, y) <==> x == y
  {
    if PathJoin(a, x) == PathJoin(a, y) {
      JoinUnder(a, x);
      JoinUnder(a, y);
      var r := PathJoin(a, x);
      assert |x| == |y|;
      assert x == r[|r| - |x|..] == y;
    }
  }

  /** `lstrip("/")` leaves a relative path as it is. */
  lemma {:induction false} LStripRelative(s: string)
    requires Relative(s)
    ensures LStripSlashes(s) == s
  {
  }

  /** Stripping the slashes off `p + s` strips them off `p` alone when `s` is relative. */
  lemma {:induction false} LStripConcat(p: string, s: string)
    requires Relative(s)
    ensures LStripSlashes(p + s) == LStripSlashes(p) + s
  {
    if p != [] && p[0] == '/' {
      assert (p + s)[1..] == p[1..] + s;
      LStripConcat(p[1..], s);
    } else if p == [] {
      assert p + s == s;
    } else {
      assert (p + s)[0] == p[0];
    }
  }

  /** The parts of a URL that the scripts read, as `urlparse` splits them. */
  datatype Url = Url(scheme: string, netloc: string, path: string)

  /** The URL as a string; query and fragment are not modelled. */
  function UrlText(u: Url): string {
    u.scheme + "://" + u.netloc + u.path
  }

  /** What `urlparse` gives for an `http(s)://host/...` URL: a host without slashes, a path that is empty or absolute. */
  predicate WellFormed(u: Url) {
    && u.netloc != []
    && (forall i :: 0 <= i < |u.netloc| ==> u.netloc[i] != '/')
    && (u.path == [] || u.path[0] == '/')
  }

  /**
   * The output folder.  Writing a file creates the directories above it
   * (`os.makedirs(..., exist_ok=True)`), so only files are recorded.
   */
  class Disk {
    var files: map<string, Bytes>

    /** `open(path, "wb")` followed by `f.write(data)`: the file is created or replaced. */
    method Write(path: string, data: Bytes)
      modifies this
      ensures files == old(files)[path := data]
    {
      files := files[path := data];
    }

    /** `os.path.exists(path)` for a file. */
    predicate Exists(path: string)
      reads this
    {
      path in files
    }
  }
}
