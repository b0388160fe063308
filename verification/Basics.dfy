/** What several modules need: optional values, path names from the root, sequences without
    repetition, and division with a remainder. */
module Basics {
  datatype Option<T> = None | Some(value: T)

  predicate Absolute(s: string) {
    s != [] && s[0] == '/'
  }

  /** s without its element k. */
  function Without<T>(s: seq<T>, k: nat): seq<T>
    requires k < |s|
  {
    s[..k] + s[k + 1..]
  }

  ghost predicate EachOnce<T>(s: seq<T>) {
    forall i, j | 0 <= i < j < |s| :: s[i] != s[j]
  }

  /** What is left over is less than w. */
  lemma QuotientIs(n: nat, q: nat, r: nat, w: nat)
    requires n == q * w + r && r < w
    ensures n % w == r && n / w == q
  {
    if n / w > q {
      LessTimes(q, n / w, w);
    } else if n / w < q {
      LessTimes(n / w, q, w);
    }
  }

  lemma LessTimes(a: nat, b: nat, w: nat)
    requires a < b
    ensures (a + 1) * w <= b * w
  {
  }
}
