/** The allocator of "Untitled Document N" numbers, a process-wide hash set
    of the numbers in use (gedit/gedit-text-buffer.c and
    gedit/gedit-document.c each hold the same copy). */
module GeditUntitled {

  /** The least positive number not in `s`. */
  function LeastFree(s: set<int>): (n: int)
    ensures n >= 1 && n !in s
    ensures forall k :: 1 <= k < n ==> k in s
  {
    LeastFreeFrom(s, 1)
  }

  function LeastFreeFrom(s: set<int>, i: int): (n: int)
    requires i >= 1 && forall k :: 1 <= k < i ==> k in s
    ensures n >= i && n !in s
    ensures forall k :: 1 <= k < n ==> k in s
    decreases |s| + 1 - i
  {
    RangeInSet(s, i);
    if i in s then
      RangeInSet(s, i + 1);
      LeastFreeFrom(s, i + 1)
    else i
  }

  /** A set holding 1 .. i-1 has at least i-1 elements: the search for a
      free number ends. */
  lemma {:induction false} RangeInSet(s: set<int>, i: int)
    requires forall k :: 1 <= k < i ==> k in s
    ensures i - 1 <= |s|
    decreases i
  {
    if i > 1 {
      var s' := s - {i - 1};
      assert |s'| == |s| - 1;
      RangeInSet(s', i - 1);
    }
  }

  class UntitledNumbers {
    var inUse: set<int>

    constructor()
      ensures inUse == {}
    {
      inUse := {};
    }

    /** `get_untitled_number`: takes and returns the least free number. */
    method GetUntitledNumber() returns (n: int)
      modifies this
      ensures n == LeastFree(old(inUse))
      ensures inUse == old(inUse) + {n}
    {
      var i := 1;
      while true
        invariant inUse == old(inUse)
        invariant i >= 1 && forall k :: 1 <= k < i ==> k in inUse
        invariant LeastFreeFrom(inUse, i) == LeastFree(inUse)
        decreases |inUse| + 1 - i
      {
        RangeInSet(inUse, i);
        if i !in inUse {
          inUse := inUse + {i};
          return i;
        }
        RangeInSet(inUse, i + 1);
        i := i + 1;
      }
    }

    /** `release_untitled_number`. */
    method ReleaseUntitledNumber(n: int)
      modifies this
      ensures inUse == old(inUse) - {n}
    {
      inUse := inUse - {n};
    }
  }

  /** Releasing a number makes it the next one handed out as long as no
      smaller number is free. */
  lemma ReleasedNumberIsReused(s: set<int>, n: int)
    requires n >= 1 && forall k :: 1 <= k < n ==> k in s
    ensures LeastFree(s - {n}) == n
  {
  }

  /** Taking a number and releasing it again leaves the set as it was. */
  lemma TakeThenRelease(s: set<int>)
    ensures (s + {LeastFree(s)}) - {LeastFree(s)} == s
  {
  }

  /** Two documents alive at once never share a number. */
  lemma NumbersAreDistinct(s: set<int>)
    ensures LeastFree(s) != LeastFree(s + {LeastFree(s)})
  {
  }
}
