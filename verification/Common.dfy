/** Small datatypes, lists of lists, the order of strings, and the arithmetic of
    remainders. */
module Common {
  datatype Option<+T> = None | Some(value: T)

  /** Concatenation of a list of lists. */
  function Flatten<T>(ss: seq<seq<T>>): (r: seq<T>)
  {
    if ss == [] then [] else ss[0] + Flatten(ss[1..])
  }

  lemma Associates<T>(a: seq<T>, b: seq<T>, c: seq<T>)
    ensures a + (b + c) == (a + b) + c
  {
  }

  lemma {:induction false} FlattenAppend<T>(a: seq<seq<T>>, b: seq<seq<T>>)
    ensures Flatten(a + b) == Flatten(a) + Flatten(b)
  {
    if a == [] {
      assert a + b == b;
    } else {
      assert (a + b)[0] == a[0] && (a + b)[1..] == a[1..] + b;
      FlattenAppend(a[1..], b);
      Associates(a[0], Flatten(a[1..]), Flatten(b));
    }
  }

  // ----- StringRef's order -----

  predicate Less(a: seq<int>, b: seq<int>) {
    b != [] && (a == [] || a[0] < b[0] || (a[0] == b[0] && Less(a[1..], b[1..])))
  }

  /** The lists agree before position k, where the first ends or has the smaller
      element. */
  predicate DiffersAt(a: seq<int>, b: seq<int>, k: nat) {
    && k <= |a| && k < |b| && (forall i :: 0 <= i < k ==> a[i] == b[i])
    && (k == |a| || a[k] < b[k])
  }

  /** The order of a dictionary: the first difference decides, and a beginning
      comes first. */
  lemma {:induction false} LessIsDictionary(a: seq<int>, b: seq<int>)
    ensures Less(a, b) <==> exists k: nat :: DiffersAt(a, b, k)
  {
    if b == [] {
    } else if a == [] || a[0] < b[0] {
      assert DiffersAt(a, b, 0);
    } else if a[0] == b[0] {
      LessIsDictionary(a[1..], b[1..]);
      if k: nat :| DiffersAt(a[1..], b[1..], k) {
        DiffersLater(a, b, k);
      }
      if k: nat :| DiffersAt(a, b, k) {
        DiffersLater(a, b, k - 1);
      }
    }
  }

  lemma DiffersLater(a: seq<int>, b: seq<int>, k: nat)
    requires a != [] && b != [] && a[0] == b[0]
    ensures DiffersAt(a, b, k + 1) <==> DiffersAt(a[1..], b[1..], k)
  {
    if DiffersAt(a, b, k + 1) {
      assert forall i :: 0 <= i < k ==> a[1..][i] == a[i + 1] && b[1..][i] == b[i + 1];
    }
    if DiffersAt(a[1..], b[1..], k) {
      forall i | 0 <= i < k + 1 ensures a[i] == b[i] {
        if i > 0 {
          assert a[1..][i - 1] == b[1..][i - 1];
        }
      }
    }
  }

  lemma {:induction false} LessIsStrict(a: seq<int>)
    ensures !Less(a, a)
  {
    if a != [] {
      LessIsStrict(a[1..]);
    }
  }

  lemma {:induction false} LessIsTransitive(a: seq<int>, b: seq<int>, c: seq<int>)
    requires Less(a, b) && Less(b, c)
    ensures Less(a, c)
  {
    if a != [] && a[0] == b[0] == c[0] {
      LessIsTransitive(a[1..], b[1..], c[1..]);
    }
  }

  lemma {:induction false} LessIsTotal(a: seq<int>, b: seq<int>)
    ensures a == b || Less(a, b) || Less(b, a)
  {
    if a != [] && b != [] && a[0] == b[0] {
      LessIsTotal(a[1..], b[1..]);
      assert a == [a[0]] + a[1..] && b == [b[0]] + b[1..];
    }
  }

  /** RoundUpToAlignment: the least multiple of align that is at least x. */
  function RoundUp(x: nat, align: nat): (r: nat)
    requires align > 0
    ensures x <= r < x + align
    ensures r % align == 0
  {
    var q := (x + align - 1) / align;
    MultipleMod(q, align);
    assert q * align + (x + align - 1) % align == x + align - 1;
    q * align
  }

  lemma MultipleMod(q: int, m: nat)
    requires m > 0
    ensures (q * m) % m == 0
  {
    ModShift(0, q, m);
  }

  lemma ModSmall(v: nat, m: nat)
    requires v < m
    ensures v % m == v
  {
  }

  /** Adding twice to a wrapping field is adding the sum once. */
  lemma ModAddAdd(r: int, a: int, b: int, m: nat)
    requires m > 0
    ensures ((r + a) % m + b) % m == (r + a + b) % m
  {
    var q := (r + a) / m;
    assert r + a == q * m + (r + a) % m;
    ModShift((r + a) % m + b, q, m);
  }

  lemma {:induction false} ModShift(x: int, q: int, m: nat)
    requires m > 0
    ensures (x + q * m) % m == x % m
    decreases if q < 0 then -q else q
  {
    if q > 0 {
      ModShift(x, q - 1, m);
      ModStep(x + (q - 1) * m, m);
      assert x + q * m == x + (q - 1) * m + m;
    } else if q < 0 {
      ModShift(x, q + 1, m);
      ModStep(x + q * m, m);
      assert x + (q + 1) * m == x + q * m + m;
    }
  }

  lemma ModStep(x: int, m: nat)
    requires m > 0
    ensures (x + m) % m == x % m
  {
    var q, r := x / m, x % m;
    assert x + m == (q + 1) * m + r;
    ModUnique(x + m, q + 1, r, m);
  }

  lemma ModUnique(x: int, q: int, r: int, m: nat)
    requires m > 0 && 0 <= r < m && x == q * m + r
    ensures x % m == r
  {
    var d := x / m - q;
    assert d * m == r - x % m by {
      assert x == (x / m) * m + x % m;
      assert (x / m - q) * m == (x / m) * m - q * m;
    }
    if d >= 1 {
      MulAtLeast(d, m);
    } else if d <= -1 {
      MulAtLeast(-d, m);
    }
  }

  lemma MulAtLeast(d: int, m: nat)
    requires d >= 1
    ensures d * m >= m
  {
  }

  /** Two addends act alike on a field exactly when they differ by a multiple
      of the modulus. */
  lemma ModEqual(r: int, a: int, b: int, m: nat)
    requires m > 0
    ensures (r + a) % m == (r + b) % m <==> (b - a) % m == 0
  {
    if (b - a) % m == 0 {
      var q := (b - a) / m;
      assert b - a == q * m;
      ModShift(r + a, q, m);
    }
    if (r + a) % m == (r + b) % m {
      var q := (r + b) / m - (r + a) / m;
      assert b - a == q * m;
      ModShift(0, q, m);
    }
  }

  lemma NegatedMultiple(x: int, m: nat)
    requires m > 0
    ensures (-x) % m == 0 <==> x % m == 0
  {
    if x % m == 0 {
      assert -x == (-(x / m)) * m;
      MultipleMod(-(x / m), m);
    }
    if (-x) % m == 0 {
      assert x == (-((-x) / m)) * m;
      MultipleMod(-((-x) / m), m);
    }
  }
}
