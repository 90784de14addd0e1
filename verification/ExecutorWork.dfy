/** Counting outstanding work (include/asio/executor_work.hpp): any number of objects share an
    executor, and each that owns work accounts for one call of `on_work_started` that has not been
    matched by `on_work_finished`. */
module ExecutorWork {

  class Executor {
    var started: nat     // calls of on_work_started
    var finished: nat    // calls of on_work_finished
    ghost var live: set<Work>

    /** The live objects that own work. */
    ghost function Owners(): set<Work>
      reads this, live
    {
      set w | w in live && w.owns
    }

    /** The balance. */
    ghost predicate Valid()
      reads this, live
    {
      && (forall w :: w in live ==> w.executor == this)
      && started == finished + |Owners()|
    }

    constructor ()
      ensures Valid() && live == {} && started == 0
    {
      started, finished, live := 0, 0, {};
    }

    method OnWorkStarted()
      modifies this`started
      ensures started == old(started) + 1
    {
      started := started + 1;
    }

    method OnWorkFinished()
      modifies this`finished
      ensures finished == old(finished) + 1
    {
      finished := finished + 1;
    }

    /** Work has run out exactly when no live object owns any. */
    lemma ZeroIffNoOwner()
      requires Valid()
      ensures finished <= started
      ensures started == finished <==> forall w :: w in live ==> !w.owns
    {
      if started == finished {
        assert Owners() == {};
        forall w | w in live ensures !w.owns {
          assert w !in Owners();
        }
      } else {
        var w :| w in Owners();
      }
    }
  }

  class Work {
    const executor: Executor
    var owns: bool

    /** A work object is constructed for an executor. */
    constructor (e: Executor)
      requires e.Valid()
      modifies e
      ensures e.Valid() && executor == e && owns
      ensures e.live == old(e.live) + {this} && e.Owners() == old(e.Owners()) + {this}
      ensures e.finished == old(e.finished)
    {
      executor, owns := e, true;
      new;
      executor.OnWorkStarted();
      executor.live := executor.live + {this};
      assert e.Owners() == old(e.Owners()) + {this};
    }

    /** The copy constructor: the copy owns work of its own if the original does. */
    constructor Copy(other: Work)
      requires other.executor.Valid() && other in other.executor.live
      modifies other.executor
      ensures executor == other.executor && executor.Valid() && owns == other.owns
      ensures executor.live == old(other.executor.live) + {this}
      ensures executor.Owners() == if owns then old(other.executor.Owners()) + {this} else old(other.executor.Owners())
      ensures executor.finished == old(other.executor.finished)
    {
      executor, owns := other.executor, other.owns;
      new;
      ghost var before := executor.Owners();
      executor.live := executor.live + {this};
      if owns {
        executor.OnWorkStarted();
        assert executor.Owners() == before + {this};
      } else {
        assert executor.Owners() == before;
      }
    }

    /** The move constructor: ownership goes over, and nothing is counted. */
    constructor Move(other: Work)
      requires other.executor.Valid() && other in other.executor.live
      modifies other`owns, other.executor`live
      ensures executor == other.executor && executor.Valid()
      ensures owns == old(other.owns) && !other.owns
      ensures executor.live == old(other.executor.live) + {this}
      ensures executor.started == old(other.executor.started)
      ensures executor.finished == old(other.executor.finished)
    {
      executor, owns := other.executor, other.owns;
      new;
      ghost var before := executor.Owners();
      other.owns := false;
      executor.live := executor.live + {this};
      if owns {
        assert executor.Owners() == before - {other} + {this};
      } else {
        assert executor.Owners() == before;
      }
    }

    /** The destructor. */
    method Destroy()
      requires executor.Valid() && this in executor.live
      modifies executor
      ensures executor.Valid() && executor.live == old(executor.live) - {this}
      ensures executor.Owners() == old(executor.Owners()) - {this}
      ensures executor.started == old(executor.started)
    {
      if owns {
        executor.OnWorkFinished();
      }
      executor.live := executor.live - {this};
      assert executor.Owners() == old(executor.Owners()) - {this};
    }

    method Reset()
      requires executor.Valid() && this in executor.live
      modifies this`owns, executor`finished
      ensures executor.Valid() && !owns
      ensures executor.Owners() == old(executor.Owners()) - {this}
    {
      if owns {
        executor.OnWorkFinished();
        owns := false;
      }
      assert executor.Owners() == old(executor.Owners()) - {this};
    }
  }
}
