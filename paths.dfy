/** POSIX path joining, as the program's `os.path.join` does it for two components. */
module Paths {

  /** True if `p` is an absolute path. */
  predicate IsAbsolute(p: string) {
    |p| > 0 && p[0] == '/'
  }

  /** Joins `a` and `b`: an absolute `b` replaces `a`; otherwise a separator
      is inserted unless `a` is empty or already ends with one. */
  function PathJoin(a: string, b: string): (r: string)
    ensures |r| >= |b| && r[|r| - |b|..] == b
    ensures IsAbsolute(b) ==> r == b
    ensures !IsAbsolute(b) ==> |a| <= |r| && r[..|a|] == a
  {
    if IsAbsolute(b) then b
    else if a == [] || a[|a| - 1] == '/' then a + b
    else a + "/" + b
  }

  /** Joining onto a directory written without a trailing separator puts
      exactly one separator between the two parts. */
  lemma JoinInsertsSeparator(a: string, b: string)
    requires a != [] && a[|a| - 1] != '/' && !IsAbsolute(b)
    ensures PathJoin(a, b) == a + "/" + b
  {
  }

  /** Joining two relative paths onto the same directory gives the same
      path only when the two are the same. */
  lemma JoinRelativeInjective(a: string, b1: string, b2: string)
    requires !IsAbsolute(b1) && !IsAbsolute(b2)
    ensures PathJoin(a, b1) == PathJoin(a, b2) <==> b1 == b2
  {
    var r1 := PathJoin(a, b1);
    var r2 := PathJoin(a, b2);
    if r1 == r2 {
      var sep := if a == [] || a[|a| - 1] == '/' then a else a + "/";
      assert r1 == sep + b1 && r2 == sep + b2;
      assert |b1| == |b2|;
    }
  }

}
