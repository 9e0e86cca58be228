/** The string building the layout code uses: `new string(c, n)` and a count
    of one character's occurrences, for stating what a built line holds. */
module Text {
  import opened Outcomes

  /** n copies of c: `new string(c, n)` for a character, and a midpoint
      repeated as often as its frequency for a grouped sample. */
  function Repeat<T>(c: T, n: nat): (r: seq<T>)
    ensures |r| == n
    ensures forall i :: 0 <= i < n ==> r[i] == c
  {
    seq(n, _ => c)
  }

  /** `new string(c, n)`: a negative count throws ArgumentOutOfRangeException. */
  function NewString(c: char, n: int): (r: Result<string>)
    ensures r.Ok? <==> n >= 0
    ensures r.Err? ==> r.error == ArgumentOutOfRange
    ensures r.Ok? ==> r.value == Repeat(c, n)
  {
    if n < 0 then Err(ArgumentOutOfRange) else Ok(Repeat(c, n))
  }

  /** How many times c occurs in s. */
  function Occurrences(s: string, c: char): (k: nat)
    ensures k <= |s|
  {
    if |s| == 0 then 0
    else Occurrences(s[..|s| - 1], c) + (if s[|s| - 1] == c then 1 else 0)
  }

  lemma {:induction false} OccurrencesAppend(a: string, b: string, c: char)
    ensures Occurrences(a + b, c) == Occurrences(a, c) + Occurrences(b, c)
    decreases |b|
  {
    if |b| > 0 {
      assert (a + b)[..|a + b| - 1] == a + b[..|b| - 1];
      OccurrencesAppend(a, b[..|b| - 1], c);
    } else {
      assert a + b == a;
    }
  }

  lemma {:induction false} OccurrencesRepeat(x: char, n: nat, c: char)
    ensures Occurrences(Repeat(x, n), c) == if x == c then n else 0
    decreases n
  {
    if n > 0 {
      assert Repeat(x, n)[..n - 1] == Repeat(x, n - 1);
      OccurrencesRepeat(x, n - 1, c);
    }
  }
}
