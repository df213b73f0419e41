/** The first position of a minimum: the reference for a search that keeps
    its current best unless a later candidate is strictly smaller. */
module ArgMin {

  /** The index of the first minimum of a non-empty sequence. */
  function FirstMin(d: seq<int>): (k: nat)
    requires |d| > 0
    ensures k < |d|
    ensures forall j :: 0 <= j < |d| ==> d[k] <= d[j]
    ensures forall j :: 0 <= j < k ==> d[k] < d[j]
  {
    if |d| == 1 then 0
    else
      var k := FirstMin(d[1..]) + 1;
      if d[k] < d[0] then k else 0
  }

  /** An index that is a minimum and beats every earlier entry is the first
      minimum. */
  lemma FirstMinUnique(d: seq<int>, k: nat)
    requires k < |d|
    requires forall j :: 0 <= j < |d| ==> d[k] <= d[j]
    requires forall j :: 0 <= j < k ==> d[k] < d[j]
    ensures FirstMin(d) == k
  {
  }

  /** Searching `a` and then `b`: the winner of `b` replaces the winner of
      `a` only when strictly smaller. */
  lemma FirstMinAppend(a: seq<int>, b: seq<int>)
    requires |a| > 0 && |b| > 0
    ensures FirstMin(a + b)
         == if b[FirstMin(b)] < a[FirstMin(a)] then |a| + FirstMin(b) else FirstMin(a)
  {
    var ka, kb := FirstMin(a), FirstMin(b);
    var d := a + b;
    if b[kb] < a[ka] {
      var k := |a| + kb;
      forall j | 0 <= j < |d| ensures d[k] <= d[j] {
        if j < |a| { assert d[j] == a[j]; } else { assert d[j] == b[j - |a|]; }
      }
      forall j | 0 <= j < k ensures d[k] < d[j] {
        if j < |a| { assert d[j] == a[j]; } else { assert d[j] == b[j - |a|]; }
      }
      FirstMinUnique(d, k);
    } else {
      forall j | 0 <= j < |d| ensures d[ka] <= d[j] {
        if j < |a| { assert d[j] == a[j]; } else { assert d[j] == b[j - |a|]; }
      }
      FirstMinUnique(d, ka);
    }
  }

  /** Over two concatenated candidate lists, the first minimum picks the
      second list's winner only when it is strictly smaller. */
  lemma FirstMinPick<T>(xa: seq<T>, xb: seq<T>, a: seq<int>, b: seq<int>)
    requires |a| == |xa| > 0 && |b| == |xb| > 0
    ensures var w := FirstMin(a + b);
            if b[FirstMin(b)] < a[FirstMin(a)]
            then (xa + xb)[w] == xb[FirstMin(b)] && (a + b)[w] == b[FirstMin(b)]
            else (xa + xb)[w] == xa[FirstMin(a)] && (a + b)[w] == a[FirstMin(a)]
  {
    FirstMinAppend(a, b);
  }
}
