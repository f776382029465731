/**
  The standalone `SubArray` program: every contiguous, non-empty sub-array of an array,
  listed by start index and then by end index.
*/
module SubArray {

  /** The slices `s[i..i+1]`, …, `s[i..j]` that the inner loop has added for start `i` once its end passed `j`. */
  function RowUpTo(s: seq<int>, i: nat, j: nat): (r: seq<seq<int>>)
    requires i <= j <= |s|
    decreases j
  {
    if j == i then [] else RowUpTo(s, i, j - 1) + [s[i..j]]
  }

  /** The slices of every start below `i`, each start with all its ends. */
  function UpTo(s: seq<int>, i: nat): (r: seq<seq<int>>)
    requires i <= |s|
  {
    if i == 0 then [] else UpTo(s, i - 1) + RowUpTo(s, i - 1, |s|)
  }

  /** All contiguous sub-arrays, in the order the nested loops list them. */
  function AllSubArrays(s: seq<int>): seq<seq<int>> {
    UpTo(s, |s|)
  }

  /**
    The nested loops of `main`: for each start `i`, for each end `j` past it, append
    `copyOfRange(arr, i, j)`.
  */
  method SubArrays(arr: array<int>) returns (subarrList: seq<seq<int>>)
    ensures subarrList == AllSubArrays(arr[..])
  {
    subarrList := [];
    var i := 0;
    while i < arr.Length
      invariant 0 <= i <= arr.Length
      invariant subarrList == UpTo(arr[..], i)
    {
      var j := i + 1;
      while j <= arr.Length
        invariant i + 1 <= j <= arr.Length + 1
        invariant subarrList == UpTo(arr[..], i) + RowUpTo(arr[..], i, j - 1)
      {
        var subArray := arr[i..j];
        subarrList := subarrList + [subArray];
        j := j + 1;
      }
      i := i + 1;
    }
  }

  /** `main` itself: the sub-arrays of `{1, 2, 3}`. */
  method ListOneTwoThree() returns (subarrList: seq<seq<int>>)
    ensures subarrList == [[1], [1, 2], [1, 2, 3], [2], [2, 3], [3]]
  {
    var arr := new int[3];
    arr[0], arr[1], arr[2] := 1, 2, 3;
    subarrList := SubArrays(arr);
    AllOfOneTwoThree(arr[..]);
  }

  lemma AllOfOneTwoThree(s: seq<int>)
    requires s == [1, 2, 3]
    ensures AllSubArrays(s) == [[1], [1, 2], [1, 2, 3], [2], [2, 3], [3]]
  {
    assert s[0..1] == [1] && s[0..2] == [1, 2] && s[0..3] == [1, 2, 3];
    assert s[1..2] == [2] && s[1..3] == [2, 3] && s[2..3] == [3];
    assert RowUpTo(s, 0, 3) == [[1], [1, 2], [1, 2, 3]] by {
      assert RowUpTo(s, 0, 1) == [[1]];
      assert RowUpTo(s, 0, 2) == [[1], [1, 2]];
    }
    assert RowUpTo(s, 1, 3) == [[2], [2, 3]] by {
      assert RowUpTo(s, 1, 2) == [[2]];
    }
    assert RowUpTo(s, 2, 3) == [[3]];
  }

  /** The position at which the sub-arrays of start `i` begin: the rows of all earlier starts. */
  function RowStart(n: nat, i: nat): (p: nat)
    requires i <= n
  {
    if i == 0 then 0 else RowStart(n, i - 1) + (n - (i - 1))
  }

  /** The position of `s[i..j]` in the listing. */
  function Position(n: nat, i: nat, j: nat): nat
    requires i < j <= n
  {
    RowStart(n, i) + (j - i - 1)
  }

  lemma {:induction false} RowUpToShape(s: seq<int>, i: nat, j: nat)
    requires i <= j <= |s|
    ensures |RowUpTo(s, i, j)| == j - i
    ensures forall b :: i < b <= j ==> RowUpTo(s, i, j)[b - i - 1] == s[i..b]
    decreases j
  {
    if j > i {
      RowUpToShape(s, i, j - 1);
    }
  }

  /** The listing of the first `i` starts has one entry per pair `(a, b)` with `a < i`. */
  lemma {:induction false} UpToLength(s: seq<int>, i: nat)
    requires i <= |s|
    ensures |UpTo(s, i)| == RowStart(|s|, i)
  {
    if i > 0 {
      UpToLength(s, i - 1);
      RowUpToShape(s, i - 1, |s|);
    }
  }

  /** In the listing of the first `i` starts, `s[a..b]` sits at its position. */
  lemma {:induction false} UpToAt(s: seq<int>, i: nat, a: nat, b: nat)
    requires a < i <= |s| && a < b <= |s|
    ensures Position(|s|, a, b) < |UpTo(s, i)| && UpTo(s, i)[Position(|s|, a, b)] == s[a..b]
    decreases i
  {
    var prefix := UpTo(s, i - 1);
    var row := RowUpTo(s, i - 1, |s|);
    assert UpTo(s, i) == prefix + row;
    UpToLength(s, i - 1);
    RowUpToShape(s, i - 1, |s|);
    if a < i - 1 {
      UpToAt(s, i - 1, a, b);
    } else {
      assert Position(|s|, a, b) == |prefix| + (b - i);
      assert row[b - i] == s[a..b];
    }
  }

  /** Rows start later for later starts: row `a` ends no later than row `c > a` begins. */
  lemma {:induction false} RowStartGrows(n: nat, a: nat, c: nat)
    requires a <= c <= n
    ensures RowStart(n, a) <= RowStart(n, c)
    decreases c
  {
    if a < c {
      RowStartGrows(n, a, c - 1);
    }
  }

  /** Closed form of the row offsets: `2 * RowStart(n, i) == i * (2n - i + 1)`. */
  lemma {:induction false} RowStartClosedForm(n: nat, i: nat)
    requires i <= n
    ensures 2 * RowStart(n, i) == i * (2 * n - i + 1)
  {
    if i > 0 {
      RowStartClosedForm(n, i - 1);
      calc {
        2 * RowStart(n, i);
        2 * RowStart(n, i - 1) + 2 * (n - (i - 1));
        (i - 1) * (2 * n - (i - 1) + 1) + 2 * (n - (i - 1));
        i * (2 * n - i + 1);
      }
    }
  }

  /** Exactly `n(n+1)/2` sub-arrays are listed. */
  lemma SubArrayCount(s: seq<int>)
    ensures |AllSubArrays(s)| == |s| * (|s| + 1) / 2
  {
    UpToLength(s, |s|);
    RowStartClosedForm(|s|, |s|);
  }

  /** Every pair `0 <= a < b <= n` is listed, as `s[a..b]`, at its position. */
  lemma SubArrayAt(s: seq<int>, a: nat, b: nat)
    requires a < b <= |s|
    ensures Position(|s|, a, b) < |AllSubArrays(s)|
    ensures AllSubArrays(s)[Position(|s|, a, b)] == s[a..b]
  {
    UpToAt(s, |s|, a, b);
  }

  /**
    The listing is ordered by start, then by end: the position of `s[a..b]` precedes that
    of `s[c..d]` exactly when `(a, b)` comes first in that order.
  */
  lemma {:induction false} SubArrayOrder(n: nat, a: nat, b: nat, c: nat, d: nat)
    requires a < b <= n && c < d <= n
    ensures Position(n, a, b) < Position(n, c, d) <==> a < c || (a == c && b < d)
  {
    if a < c {
      RowStartGrows(n, a + 1, c);
    } else if c < a {
      RowStartGrows(n, c + 1, a);
    }
  }

  /** Every listed element is some non-empty slice of the input. */
  lemma EverySubArrayIsASlice(s: seq<int>, k: nat)
    requires k < |AllSubArrays(s)|
    ensures exists a, b :: 0 <= a < b <= |s| && AllSubArrays(s)[k] == s[a..b]
    ensures |AllSubArrays(s)[k]| >= 1
  {
    var a, b := SliceAt(s, |s|, k);
  }

  lemma {:induction false} SliceAt(s: seq<int>, i: nat, k: nat) returns (a: nat, b: nat)
    requires i <= |s| && k < |UpTo(s, i)|
    ensures a < b <= |s| && UpTo(s, i)[k] == s[a..b]
  {
    var prefix := UpTo(s, i - 1);
    if k < |prefix| {
      a, b := SliceAt(s, i - 1, k);
    } else {
      RowUpToShape(s, i - 1, |s|);
      a, b := i - 1, k - |prefix| + i;
    }
  }
}
