/** The counting loop of `get_num_of_files_in_dir`: how many of the names a directory
    listing returned end with the given extension. The listing itself is a parameter. */
module FileCount {

  /** `name.endswith(suffix)`; every name ends with the empty suffix. */
  predicate EndsWith(name: string, suffix: string) {
    |suffix| <= |name| && name[|name| - |suffix|..] == suffix
  }

  /** The names that end with `ext`, in listing order. */
  function Matching(names: seq<string>, ext: string): (m: seq<string>)
    ensures |m| <= |names|
  {
    if names == [] then []
    else
      var init, last := names[..|names| - 1], names[|names| - 1];
      Matching(init, ext) + (if EndsWith(last, ext) then [last] else [])
  }

  /** The names counted are exactly the names that end with the extension, each as often as
      the listing holds it. */
  lemma {:induction false} MatchingCounts(names: seq<string>, ext: string, x: string)
    ensures multiset(Matching(names, ext))[x] == if EndsWith(x, ext) then multiset(names)[x] else 0
  {
    if names != [] {
      var init, last := names[..|names| - 1], names[|names| - 1];
      assert names == init + [last];
      MatchingCounts(init, ext, x);
    }
  }

  /** Every name counts exactly when every name ends with the extension. */
  lemma {:induction false} AllMatch(names: seq<string>, ext: string)
    ensures |Matching(names, ext)| == |names| <==> forall i | 0 <= i < |names| :: EndsWith(names[i], ext)
  {
    if names != [] {
      var init, last := names[..|names| - 1], names[|names| - 1];
      AllMatch(init, ext);
      var m := Matching(init, ext);
      assert Matching(names, ext) == m + (if EndsWith(last, ext) then [last] else []);
      assert |m| <= |init|;
      if |Matching(names, ext)| == |names| {
        assert EndsWith(last, ext) && |m| == |init|;
        forall i | 0 <= i < |names|
          ensures EndsWith(names[i], ext)
        {
          if i < |init| {
            assert names[i] == init[i];
          }
        }
      }
      if forall i | 0 <= i < |names| :: EndsWith(names[i], ext) {
        assert forall i | 0 <= i < |init| :: init[i] == names[i];
        assert EndsWith(names[|names| - 1], ext);
      }
    }
  }

  /** No name counts exactly when no name ends with the extension. */
  lemma {:induction false} NoneMatch(names: seq<string>, ext: string)
    ensures |Matching(names, ext)| == 0 <==> forall i | 0 <= i < |names| :: !EndsWith(names[i], ext)
  {
    if names != [] {
      var init, last := names[..|names| - 1], names[|names| - 1];
      NoneMatch(init, ext);
      assert forall i | 0 <= i < |init| :: init[i] == names[i];
    }
  }

  /** `get_num_of_files_in_dir` over the listing `names`: one increment per matching name. */
  method CountFiles(names: seq<string>, ext: string) returns (total: nat)
    ensures total == |Matching(names, ext)|
    ensures total <= |names|
    ensures total == |names| <==> forall i | 0 <= i < |names| :: EndsWith(names[i], ext)
    ensures total == 0 <==> forall i | 0 <= i < |names| :: !EndsWith(names[i], ext)
  {
    total := 0;
    for i := 0 to |names|
      invariant total == |Matching(names[..i], ext)|
    {
      assert names[..i + 1][..i] == names[..i];
      if EndsWith(names[i], ext) {
        total := total + 1;
      }
    }
    assert names[..|names|] == names;
    AllMatch(names, ext);
    NoneMatch(names, ext);
  }
}
