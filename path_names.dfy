/**
 * The two path operations the repair script relies on: joining the dataset
 * root with a manifest path (`os.path.join` with two arguments, POSIX flavour)
 * and taking the final component of a path (`pathlib.Path(...).name`).
 */
module PathNames {

  predicate IsAbsolute(p: string) {
    |p| > 0 && p[0] == '/'
  }

  /** `os.path.join(base, rel)`: an absolute `rel` replaces `base`; otherwise a
      separator is inserted unless `base` is empty or already ends in one. */
  function Join(base: string, rel: string): string {
    if IsAbsolute(rel) then rel
    else if base == [] || base[|base| - 1] == '/' then base + rel
    else base + "/" + rel
  }

  /** The joined path ends with `rel`, after a separator unless nothing comes
      before it; what comes before is the base, with a separator added when the
      base lacks one (and only then: an empty base, or one already ending in a
      separator, is kept as it is), and nothing at all when `rel` is absolute. */
  lemma JoinShape(base: string, rel: string)
    ensures var r := Join(base, rel);
      && |r| >= |rel| && r[|r| - |rel|..] == rel
      && (IsAbsolute(rel) ==> r == rel)
      && (!IsAbsolute(rel) ==> r[..|r| - |rel|] == base || r[..|r| - |rel|] == base + "/")
      && (!IsAbsolute(rel) ==> (r[..|r| - |rel|] == base <==> base == [] || base[|base| - 1] == '/'))
      && (|r| > |rel| ==> r[|r| - |rel| - 1] == '/')
  {
  }

  /** The longest suffix of `p` that holds no separator. */
  function Segment(p: string): (r: string)
    ensures |r| <= |p|
    ensures '/' !in r
  {
    if p == [] || p[|p| - 1] == '/' then []
    else Segment(p[..|p| - 1]) + [p[|p| - 1]]
  }

  /** The segment is a suffix of the path, preceded by a separator unless it is
      the whole path. */
  lemma {:induction false} SegmentIsSuffix(p: string)
    ensures Segment(p) == p[|p| - |Segment(p)|..]
    ensures |Segment(p)| < |p| ==> p[|p| - |Segment(p)| - 1] == '/'
    decreases |p|
  {
    if p != [] && p[|p| - 1] != '/' {
      var init := p[..|p| - 1];
      SegmentIsSuffix(init);
      var k := |Segment(init)|;
      assert Segment(p) == Segment(init) + [p[|p| - 1]];
      assert p == init + [p[|p| - 1]];
      assert p[|p| - (k + 1)..] == init[|init| - k..] + [p[|p| - 1]];
      if k < |init| {
        assert p[|p| - (k + 1) - 1] == init[|init| - k - 1];
      }
    }
  }

  /** `Path(p).name`: the last component of `p`, ignoring trailing separators and
      `.` components, or the empty string when there is none. */
  function Name(p: string): (r: string)
    decreases |p|
    ensures '/' !in r
    ensures r != "."
    ensures |r| <= |p|
  {
    if p == [] then []
    else if p[|p| - 1] == '/' then Name(p[..|p| - 1])
    else
      var s := Segment(p);
      if s == "." then Name(p[..|p| - 1]) else s
  }

  /** Prefixing a path that ends in a separator does not change the last segment. */
  lemma {:induction false} SegmentAfterSeparator(q: string, r: string)
    requires q == [] || q[|q| - 1] == '/'
    ensures Segment(q + r) == Segment(r)
    decreases |r|
  {
    var x := q + r;
    if r == [] {
      assert x == q;
    } else {
      assert x[|x| - 1] == r[|r| - 1];
      if r[|r| - 1] != '/' {
        assert x[..|x| - 1] == q + r[..|r| - 1];
        SegmentAfterSeparator(q, r[..|r| - 1]);
      }
    }
  }

  /** The name of a path with a non-empty name survives prefixing with a
      directory that ends in a separator. */
  lemma {:induction false} NameAfterSeparator(q: string, r: string)
    requires q == [] || q[|q| - 1] == '/'
    requires Name(r) != []
    ensures Name(q + r) == Name(r)
    decreases |r|
  {
    var x, r' := q + r, r[..|r| - 1];
    assert x[|x| - 1] == r[|r| - 1];
    assert x[..|x| - 1] == q + r';
    NameStep(x);
    NameStep(r);
    SegmentAfterSeparator(q, r);
    if r[|r| - 1] == '/' || Segment(r) == "." {
      NameAfterSeparator(q, r');
    }
  }

  /** One unfolding of Name on a non-empty path. */
  lemma NameStep(p: string)
    requires p != []
    ensures Name(p) == if p[|p| - 1] == '/' || Segment(p) == "." then Name(p[..|p| - 1]) else Segment(p)
  {
  }

  /** The file name the scan resolves depends only on the manifest's relative
      path, never on the dataset root it is joined with. */
  lemma NameOfJoin(base: string, rel: string)
    requires Name(rel) != []
    ensures Name(Join(base, rel)) == Name(rel)
  {
    if !IsAbsolute(rel) {
      if base == [] || base[|base| - 1] == '/' {
        NameAfterSeparator(base, rel);
      } else {
        assert base + "/" + rel == (base + "/") + rel;
        NameAfterSeparator(base + "/", rel);
      }
    }
  }

  /** A path with no separator is its own last segment. */
  lemma {:induction false} SegmentOfPlain(r: string)
    requires '/' !in r
    ensures Segment(r) == r
    decreases |r|
  {
    if r != [] {
      var init := r[..|r| - 1];
      assert r[|r| - 1] in r;
      assert forall c :: c in init ==> c in r;
      SegmentOfPlain(init);
      assert init + [r[|r| - 1]] == r;
    }
  }

  /** The name of a directory (empty, or ending in a separator) followed by a
      plain file name is that file name. */
  lemma NameOfPlain(q: string, r: string)
    requires q == [] || q[|q| - 1] == '/'
    requires r != [] && '/' !in r && r != "."
    ensures Name(q + r) == r
  {
    var x := q + r;
    assert x[|x| - 1] == r[|r| - 1] && r[|r| - 1] in r;
    SegmentAfterSeparator(q, r);
    SegmentOfPlain(r);
    NameStep(x);
  }
}
