/**
 * The path condition of the soft-removed entry listing: the list manager's
 * simple filter (LIKE clauses on the full path, grouped by the OR flag) and
 * the clauses mk_path_filter appends for the user's path filter.
 */
module PathFilter {

  /** FILTER_FLAG_BEGIN, FILTER_FLAG_OR and FILTER_FLAG_END. */
  datatype Flags = Flags(begin: bool, or: bool, end: bool)

  const Begin := Flags(true, false, false)
  const OrEnd := Flags(false, true, true)

  /** One `fullpath LIKE value` clause. */
  datatype Clause = Clause(value: string, flags: Flags)

  /**
   * LIKE on the values mk_path_filter builds: a trailing `*` (which the list
   * manager turns into `%`) matches any tail; everything else is literal.
   */
  predicate LikeMatches(value: string, path: string) {
    if |value| > 0 && value[|value| - 1] == '*' then value[..|value| - 1] <= path
    else path == value
  }

  /**
   * The state of evaluating a clause list left to right: whether every
   * closed group matched, whether a group is open, and whether the open
   * group has a matching clause so far.
   */
  datatype Scan = Scan(closed: bool, open: bool, current: bool)

  /**
   * A clause with the OR flag joins the open group; any other clause closes
   * it and opens its own; the END flag adds nothing. This grouping is the
   * meaning assumed for the list manager's filter flags.
   */
  function Evaluate(cs: seq<Clause>, path: string): Scan {
    if |cs| == 0 then Scan(true, false, false)
    else
      var st := Evaluate(cs[..|cs| - 1], path);
      var c := cs[|cs| - 1];
      var m := LikeMatches(c.value, path);
      if c.flags.or && st.open then st.(current := st.current || m)
      else Scan(st.closed && (!st.open || st.current), true, m)
  }

  /** Whether a path passes the filter: every group has a matching clause. */
  predicate Accepts(cs: seq<Clause>, path: string) {
    var st := Evaluate(cs, path);
    st.closed && (!st.open || st.current)
  }

  /** A filter being built (lmgr_filter_t): its clauses in the order they were added. */
  class Filter {
    var clauses: seq<Clause>

    constructor ()
      ensures clauses == []
    {
      clauses := [];
    }

    /** lmgr_simple_filter_init: drops every clause. */
    method Init()
      modifies this
      ensures clauses == []
    {
      clauses := [];
    }

    /** lmgr_simple_filter_add on the full path with LIKE. */
    method Add(value: string, flags: Flags)
      modifies this
      ensures clauses == old(clauses) + [Clause(value, flags)]
    {
      clauses := clauses + [Clause(value, flags)];
    }
  }

  // ---------------------------------------------------------------------------
  // What mk_path_filter adds, and what it means

  predicate EndsWithSlash(f: string) {
    |f| > 0 && f[|f| - 1] == '/'
  }

  /** The path filter with one trailing `/` removed, as the global buffer holds it afterwards. */
  function Normalized(f: string): string {
    if EndsWithSlash(f) then f[..|f| - 1] else f
  }

  /**
   * The clauses appended for a path filter f: none when f is empty;
   * f OR f + "/" + wildcard when f has no trailing slash; f + wildcard OR f without its
   * slash otherwise.
   */
  function PathClauses(f: string): seq<Clause> {
    if f == "" then []
    else if !EndsWithSlash(f) then [Clause(f, Begin), Clause(f + "/*", OrEnd)]
    else [Clause(f + "*", Begin), Clause(f[..|f| - 1], OrEnd)]
  }

  /** The entries a path filter is meant to select: f itself and everything below it. */
  predicate Selected(f: string, path: string) {
    f == "" || path == Normalized(f) || Normalized(f) + "/" <= path
  }

  /** Appending an OR group adds exactly the condition "one of its two clauses matches". */
  lemma AcceptsAppendGroup(cs: seq<Clause>, a: string, b: string, path: string)
    ensures Accepts(cs + [Clause(a, Begin), Clause(b, OrEnd)], path)
      <==> Accepts(cs, path) && (LikeMatches(a, path) || LikeMatches(b, path))
  {
    var x := Clause(a, Begin);
    var y := Clause(b, OrEnd);
    assert (cs + [x, y])[..|cs| + 1] == cs + [x];
    assert (cs + [x])[..|cs|] == cs;
    var st := Evaluate(cs, path);
    assert Evaluate(cs + [x], path) == Scan(st.closed && (!st.open || st.current), true, LikeMatches(a, path));
  }

  /** A value whose last character is not the wildcard matches only itself. */
  lemma LikeLiteral(value: string, path: string)
    requires '*' !in value
    ensures LikeMatches(value, path) <==> path == value
  {
    if |value| > 0 {
      assert value[|value| - 1] in value;
    }
  }

  /** A value ending in the wildcard matches the paths that start with the rest of it. */
  lemma LikePrefix(prefix: string, path: string)
    ensures LikeMatches(prefix + "*", path) <==> prefix <= path
  {
    assert (prefix + "*")[..|prefix|] == prefix;
  }

  /** The group for a path filter without a trailing slash: f itself, or f + "/" followed by anything. */
  lemma PathClausesNoSlash(cs: seq<Clause>, f: string, path: string)
    requires '*' !in f && f != "" && !EndsWithSlash(f)
    ensures Accepts(cs + PathClauses(f), path) <==> Accepts(cs, path) && (path == f || f + "/" <= path)
  {
    AcceptsAppendGroup(cs, f, f + "/*", path);
    LikeLiteral(f, path);
    assert f + "/*" == (f + "/") + "*";
    LikePrefix(f + "/", path);
  }

  /** The group for a path filter with a trailing slash: f followed by anything, or f without the slash. */
  lemma PathClausesSlash(cs: seq<Clause>, f: string, path: string)
    requires '*' !in f && EndsWithSlash(f)
    ensures Accepts(cs + PathClauses(f), path) <==> Accepts(cs, path) && (f <= path || path == f[..|f| - 1])
  {
    var base := f[..|f| - 1];
    AcceptsAppendGroup(cs, f + "*", base, path);
    LikePrefix(f, path);
    assert '*' !in base by {
      forall k | 0 <= k < |base| ensures base[k] != '*' {
        assert base[k] == f[k];
      }
    }
    LikeLiteral(base, path);
  }

  /**
   * For a path filter without wildcard characters, the appended clauses let
   * a path through exactly when the earlier filter does and the path is f
   * or lies below it.
   */
  lemma PathClausesMeaning(cs: seq<Clause>, f: string, path: string)
    requires '*' !in f
    ensures Accepts(cs + PathClauses(f), path) <==> Accepts(cs, path) && Selected(f, path)
  {
    if f == "" {
      assert cs + PathClauses(f) == cs;
    } else if !EndsWithSlash(f) {
      PathClausesNoSlash(cs, f, path);
    } else {
      PathClausesSlash(cs, f, path);
      assert f[..|f| - 1] + "/" == f;
    }
  }

  /** An empty path filter adds no condition: every entry is listed. */
  lemma EmptyPathFilterSelectsAll(cs: seq<Clause>, path: string)
    ensures Accepts(cs + PathClauses(""), path) == Accepts(cs, path)
  {
    assert cs + PathClauses("") == cs;
  }

  /** A single trailing slash does not change the selection. */
  lemma TrailingSlashIgnored(f: string, path: string)
    requires f != "" && !EndsWithSlash(f)
    ensures Selected(f + "/", path) == Selected(f, path)
  {
    assert (f + "/")[..|f|] == f;
  }

  /** `/a/b` and `/a/b/` both select `/a/b` and `/a/b/c`, and neither selects `/a/bc`. */
  lemma SelectionExamples()
    ensures Accepts(PathClauses("/a/b"), "/a/b") && Accepts(PathClauses("/a/b"), "/a/b/c")
    ensures !Accepts(PathClauses("/a/b"), "/a/bc")
    ensures Accepts(PathClauses("/a/b/"), "/a/b") && Accepts(PathClauses("/a/b/"), "/a/b/c")
    ensures !Accepts(PathClauses("/a/b/"), "/a/bc")
  {
    forall f, p | f in {"/a/b", "/a/b/"} && p in {"/a/b", "/a/b/c", "/a/bc"}
      ensures Accepts(PathClauses(f), p) == Selected(f, p)
    {
      PathClausesMeaning([], f, p);
      assert [] + PathClauses(f) == PathClauses(f);
    }
    assert "/a/b/"[..4] == "/a/b";
    assert !("/a/b/" <= "/a/bc") by { assert "/a/bc"[4] != '/'; }
  }
}
