/** strlen and strcmp of kernel/lib/string.c. */
module CString {
  import opened Bytes

  /** x and y are the same up to k, where x is over or has the smaller byte. */
  ghost predicate Differ(x: seq<byte>, y: seq<byte>, k: nat)
    requires k <= |x| && k < |y|
  {
    (forall j :: 0 <= j < k ==> x[j] == y[j]) && (k == |x| || x[k] < y[k])
  }

  /** Dictionary order on bytes. */
  ghost predicate Precedes(x: seq<byte>, y: seq<byte>) {
    exists k :: 0 <= k <= |x| && k < |y| && Differ(x, y, k)
  }

  method Strlen(s: seq<byte>, p: nat) returns (len: nat)
    ensures len == |CStr(s, p)|
  {
    CStrIs(s, p);
    len := 0;
    while At(s, p + len) != NUL
      invariant len <= |CStr(s, p)|
      decreases |CStr(s, p)| - len
    {
      len := len + 1;
    }
  }

  /** Dictionary order is settled where the common prefix ends. */
  lemma Settled(x: seq<byte>, y: seq<byte>, i: nat)
    requires i <= |x| && i <= |y|
    requires forall j :: 0 <= j < i ==> x[j] == y[j]
    requires i == |x| || i == |y| || x[i] != y[i]
    ensures Precedes(x, y) <==> i < |y| && (i == |x| || x[i] < y[i])
  {
    if i < |y| && (i == |x| || x[i] < y[i]) {
      assert Differ(x, y, i);
    }
    if k :| 0 <= k <= |x| && k < |y| && Differ(x, y, k) {
      assert k == i;
    }
  }

  /** The sign of the result is the dictionary order of the two C strings. */
  method Strcmp(a: seq<byte>, p: nat, b: seq<byte>, q: nat) returns (r: int)
    ensures r == 0 <==> CStr(a, p) == CStr(b, q)
    ensures r < 0 <==> Precedes(CStr(a, p), CStr(b, q))
    ensures r > 0 <==> Precedes(CStr(b, q), CStr(a, p))
  {
    ghost var x, y := CStr(a, p), CStr(b, q);
    CStrIs(a, p);
    CStrIs(b, q);
    var i := 0;
    while At(a, p + i) != NUL && At(a, p + i) == At(b, q + i)
      invariant i <= |x| && i <= |y| && forall j :: 0 <= j < i ==> x[j] == y[j]
      decreases |x| - i
    {
      i := i + 1;
    }
    r := At(a, p + i) - At(b, q + i);
    Settled(x, y, i);
    Settled(y, x, i);
  }
}
