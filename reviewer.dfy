/** The string logic of `devprofiler/src/review/reviewer.rs` that is not shared with
    `utils/gitops.rs`. Its numstat filter, hunk-header extractor, blame-line parser and collapser
    are the same code as the `GitOps` module's and are modelled there. */
module Reviewer {
  import opened Text

  /** `process_reposlug`: a `workspace/repo` slug gives `(name, owner)` from its first two
      `/`-separated segments; a slug without `/` is a bare name with an empty owner. */
  function ProcessReposlug(slug: string): (r: (string, string))
    ensures '/' in slug ==> '/' !in r.0 && '/' !in r.1
    ensures '/' !in slug ==> r == (slug, "")
  {
    if '/' in slug then
      var parts := Split(slug, '/');
      assert |parts| >= 2 by {
        if |parts| == 1 {
          JoinSplit(slug, '/');
          assert false;
        }
      }
      (parts[1], parts[0])
    else (slug, "")
  }

  /** The owner is the text before the first `/` and the name the text up to the next one;
      segments after the second are ignored. */
  lemma ReposlugSegments(owner: string, name: string, rest: string)
    requires '/' !in owner && '/' !in name
    ensures ProcessReposlug(owner + "/" + name) == (name, owner)
    ensures ProcessReposlug(owner + "/" + name + "/" + rest) == (name, owner)
  {
    SplitAtFirst(owner, '/', name);
    SplitAtFirst(owner, '/', name + "/" + rest);
    SplitAtFirst(name, '/', rest);
    assert owner + "/" + name + "/" + rest == owner + ['/'] + (name + ['/'] + rest);
    assert owner + "/" + name == owner + ['/'] + name;
    assert '/' in owner + "/" + name by { assert (owner + "/" + name)[|owner|] == '/'; }
  }

  /** For a slug with exactly one `/`, owner and name put back together give the slug. */
  lemma ReposlugRoundTrip(slug: string)
    requires '/' in slug && |Split(slug, '/')| == 2
    ensures ProcessReposlug(slug).1 + "/" + ProcessReposlug(slug).0 == slug
  {
    var parts := Split(slug, '/');
    JoinSplit(slug, '/');
    assert parts[1..] == [parts[1]];
  }
}
