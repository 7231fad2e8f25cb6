/** Logs of what a loop emitted, and how often each entry occurs in them. */
module Logs {

  /** How often `e` occurs in `log`. */
  function Count<T(==)>(log: seq<T>, e: T): nat
    decreases |log|
  {
    if log == [] then 0 else (if log[0] == e then 1 else 0) + Count(log[1..], e)
  }

  lemma {:induction false} CountAppend<T>(s: seq<T>, t: seq<T>, e: T)
    ensures Count(s + t, e) == Count(s, e) + Count(t, e)
    decreases |s|
  {
    if s == [] {
      assert s + t == t;
    } else {
      assert (s + t)[1..] == s[1..] + t;
      CountAppend(s[1..], t, e);
    }
  }

  lemma {:induction false} CountMember<T>(s: seq<T>, e: T)
    ensures Count(s, e) > 0 <==> e in s
    decreases |s|
  {
    if s != [] {
      CountMember(s[1..], e);
    }
  }
}
