/** Sizes of finite sets. */
module Sets {

  lemma {:induction false} SubsetSize<T>(a: set<T>, b: set<T>)
    requires a <= b
    ensures |a| <= |b|
    decreases |a|
  {
    if x :| x in a { SubsetSize(a - {x}, b - {x}); }
  }

  /** `all` is made up of what is left `todo` and what is `done`. */
  ghost predicate Splits<T>(all: set<T>, todo: set<T>, done: set<T>) {
    todo !! done && todo + done == all
  }

  lemma SplitsMove<T>(all: set<T>, todo: set<T>, done: set<T>, x: T)
    requires Splits(all, todo, done) && x in todo
    ensures Splits(all, todo - {x}, done + {x}) && done + {x} <= all && |done + {x}| == |done| + 1
  {
  }
}
