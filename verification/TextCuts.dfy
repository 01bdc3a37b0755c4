/** Searching and comparing text. */
module TextCuts {
  function Upper(c: char): char {
    if 'a' <= c <= 'z' then ((c as int) - 32) as char else c
  }

  /** is_caseless_same. */
  predicate CaselessSame(x: string, c: string) {
    |x| == |c| && forall i :: 0 <= i < |c| ==> Upper(c[i]) == Upper(x[i])
  }

  /** The first place of c in t[a..b], or b. */
  function Find(t: string, a: nat, b: nat, c: char): (p: nat)
    requires a <= b <= |t|
    ensures a <= p <= b && (forall k :: a <= k < p ==> t[k] != c) && (p < b ==> t[p] == c)
    decreases b - a
  {
    if a < b && t[a] != c then Find(t, a + 1, b, c) else a
  }

  /** The last place of c in t[a..b], or a. */
  function FindLast(t: string, a: nat, b: nat, c: char): (p: nat)
    requires a <= b <= |t|
    ensures a <= p <= b && (forall k :: p < k < b ==> t[k] != c)
    ensures (exists k :: a <= k < b && t[k] == c) ==> p < b && t[p] == c
    decreases b - a
  {
    if a == b then a else if t[b - 1] == c then b - 1 else FindLast(t, a, b - 1, c)
  }
}
