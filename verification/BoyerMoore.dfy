/** ext/klib/kstring.c: Boyer-Moore search with bad-character and strong good-suffix tables. */
module BoyerMoore {

  type Byte = x: int | 0 <= x < 256

  // ---- what the tables mean ---------------------------------------------------

  /** `len` is the length of the longest common suffix of pat[..i + 1] and pat. */
  ghost predicate IsSuff(pat: seq<Byte>, i: nat, len: int) {
    && i < |pat| && 0 <= len <= i + 1
    && Repeats(pat, i, i - len)
    && (len <= i ==> pat[i - len] != pat[|pat| - 1 - len])
  }

  /** The characters in (g, f] repeat at the end of the pattern. */
  ghost predicate Repeats(pat: seq<Byte>, f: nat, g: int)
    requires f < |pat| && -1 <= g
  {
    forall p :: g < p <= f ==> pat[p] == pat[p + (|pat| - 1 - f)]
  }

  /** Shifting by `s` after a mismatch at `i` agrees with the matched suffix and brings another character under `i`. */
  ghost predicate Plausible(pat: seq<Byte>, i: nat, s: nat)
    requires i < |pat|
  {
    && (forall k :: i < k < |pat| && s <= k ==> pat[k - s] == pat[k])
    && (s <= i ==> pat[i - s] != pat[i])
  }

  /** `s` is the least plausible positive shift. */
  ghost predicate IsGoodShift(pat: seq<Byte>, i: nat, s: int)
    requires i < |pat|
  {
    && 1 <= s <= |pat| && Plausible(pat, i, s)
    && forall r :: 1 <= r < s ==> !Plausible(pat, i, r)
  }

  /** `d` is the distance from the end of the pattern back to the last `c` before the end, or the pattern length. */
  ghost predicate IsBadChar(pat: seq<Byte>, c: Byte, d: int) {
    && 1 <= d <= |pat|
    && (d < |pat| ==> pat[|pat| - 1 - d] == c)
    && forall k :: |pat| - 1 - d < k < |pat| - 1 && 0 <= k ==> pat[k] != c
  }

  // ---- suffixes() -------------------------------------------------------------

  /** Inside the last repetition the answer is the one already found at the corresponding place, if that stays inside. */
  lemma SuffCopied(pat: seq<Byte>, f: nat, g: int, i: nat, len: int)
    requires f < |pat| - 1 && IsSuff(pat, f, f - g)
    requires g < i < f && IsSuff(pat, i + (|pat| - 1 - f), len) && len < i - g
    ensures IsSuff(pat, i, len)
  {
    var d := |pat| - 1 - f;
    forall p | i - len < p <= i
      ensures pat[p] == pat[p + (|pat| - 1 - i)]
    {
      assert pat[p] == pat[p + d];
      assert pat[p + d] == pat[p + d + (|pat| - 1 - (i + d))];
    }
    assert pat[i - len] == pat[i - len + d];
  }

  /** When the answer there reaches the edge, the part of the repetition up to `i` repeats at the end as well. */
  lemma Reanchored(pat: seq<Byte>, f: nat, g: int, i: nat, len: int)
    requires f < |pat| - 1 && IsSuff(pat, f, f - g)
    requires g < i < f && IsSuff(pat, i + (|pat| - 1 - f), len) && len >= i - g
    ensures Repeats(pat, i, g)
  {
    var d := |pat| - 1 - f;
    forall p | g < p <= i
      ensures pat[p] == pat[p + (|pat| - 1 - i)]
    {
      assert pat[p] == pat[p + d];
      assert pat[p + d] == pat[p + d + (|pat| - 1 - (i + d))];
    }
  }

  method Suffixes(pat: seq<Byte>) returns (suff: array<int>)
    requires |pat| > 0
    ensures fresh(suff) && suff.Length == |pat|
    ensures forall i :: 0 <= i < |pat| ==> IsSuff(pat, i, suff[i])
  {
    var m := |pat|;
    suff := new int[m](_ => 0);
    var f: int, g: int := 0, m - 1;
    suff[m - 1] := m;
    var i := m - 2;
    while i >= 0
      invariant -1 <= i <= m - 2
      invariant forall k :: i < k < m ==> IsSuff(pat, k, suff[k])
      invariant i == m - 2 ==> g == m - 1
      invariant i < m - 2 ==> i < f < m - 1 && suff[f] == f - g
    {
      var len;
      f, g, len := SuffixAt(pat, suff, i, f, g);
      suff[i] := len;
      i := i - 1;
    }
  }

  /** One turn of the loop: copy the mirrored answer, or compare characters from where the last repetition ends. */
  method SuffixAt(pat: seq<Byte>, suff: array<int>, i: nat, f0: int, g0: int) returns (f: int, g: int, len: int)
    requires suff.Length == |pat| && i <= |pat| - 2 && forall k :: i < k < |pat| ==> IsSuff(pat, k, suff[k])
    requires i == |pat| - 2 ==> g0 == |pat| - 1
    requires i < |pat| - 2 ==> i < f0 < |pat| - 1 && suff[f0] == f0 - g0
    ensures IsSuff(pat, i, len) && i <= f < |pat| - 1 && if f == i then len == f - g else suff[f] == f - g
  {
    var m := |pat|;
    f, g := f0, g0;
    if i > g && suff[i + m - 1 - f] < i - g {
      SuffCopied(pat, f, g, i, suff[i + m - 1 - f]);
      len := suff[i + m - 1 - f];
    } else {
      if i > g {
        Reanchored(pat, f, g, i, suff[i + m - 1 - f]);
      }
      if i < g {
        g := i;
      }
      f := i;
      g := ExtendLeft(pat, f, g);
      len := f - g;
    }
  }

  /** The inner loop of suffixes(): extend the repetition (g, f] to the left as far as it goes. */
  method ExtendLeft(pat: seq<Byte>, f: nat, start: int) returns (g: int)
    requires f < |pat| && -1 <= start <= f && Repeats(pat, f, start)
    ensures IsSuff(pat, f, f - g)
  {
    g := start;
    while g >= 0 && pat[g] == pat[g + |pat| - 1 - f]
      invariant -1 <= g <= f && Repeats(pat, f, g)
    {
      g := g - 1;
    }
  }

  // ---- preBmGs() --------------------------------------------------------------

  /** A suffix of the pattern of length |pat| - s is also a prefix. */
  ghost predicate Border(pat: seq<Byte>, s: nat) {
    forall k :: s <= k < |pat| ==> pat[k - s] == pat[k]
  }

  /** For a shift beyond the mismatch only the border condition is left, and the suffix table shows it. */
  lemma PlausibleBeyond(pat: seq<Byte>, j: nat, s: nat, len: int)
    requires j < s < |pat| && IsSuff(pat, |pat| - 1 - s, len)
    ensures Plausible(pat, j, s) <==> len == |pat| - s
  {
    var i := |pat| - 1 - s;
    assert Plausible(pat, j, s) <==> Border(pat, s);
    if len == |pat| - s {
      forall k | s <= k < |pat|
        ensures pat[k - s] == pat[k]
      {
        assert pat[k - s] == pat[k - s + (|pat| - 1 - i)];
      }
    } else {
      assert pat[(|pat| - 1 - len) - s] != pat[|pat| - 1 - len];
    }
  }

  /** For a shift up to the mismatch, plausible means that exactly the matched suffix reappears there. */
  lemma PlausibleWithin(pat: seq<Byte>, j: nat, s: nat, len: int)
    requires 1 <= s <= j < |pat| && IsSuff(pat, |pat| - 1 - s, len)
    ensures Plausible(pat, j, s) <==> len == |pat| - 1 - j
  {
    var m := |pat|;
    var i := m - 1 - s;
    forall k | s <= k && m - 1 - len < k < m
      ensures pat[k - s] == pat[k]
    {
      assert pat[k - s] == pat[k - s + (m - 1 - i)];
    }
    if len < m - 1 - j {
      assert pat[(m - 1 - len) - s] != pat[m - 1 - len];
    }
  }

  ghost predicate AllSuff(pat: seq<Byte>, suff: seq<int>) {
    |suff| == |pat| && forall i :: 0 <= i < |pat| ==> IsSuff(pat, i, suff[i])
  }

  /**
   `v` is the least shift in (q, limit) that leaves a border in place, or |suff| when there
   is none. Shifts are read off the suffix table by position: shift s belongs to |suff| - 1 - s.
   */
  ghost predicate FirstBorder(suff: seq<int>, q: nat, v: int, limit: int)
    requires limit <= |suff|
  {
    var m := |suff|;
    && (forall p :: m - 1 - v < p < m - 1 - q && m - 1 - limit < p && 0 <= p ==> suff[p] != p + 1)
    && (v == m || (q < v < limit && suff[m - 1 - v] == m - v))
  }

  /** `v` is the least shift in [limit, |suff|) at which exactly the suffix matched before `q` reappears, or else `other`. */
  ghost predicate FirstMatch(suff: seq<int>, q: nat, v: int, limit: int, other: int)
    requires 1 <= limit <= |suff|
  {
    var m := |suff|;
    || (&& (forall p :: 0 <= p <= m - 1 - limit ==> suff[p] != m - 1 - q)
        && v == other)
    || (&& limit <= v < m && suff[m - 1 - v] == m - 1 - q
        && forall p :: m - 1 - v < p <= m - 1 - limit ==> suff[p] != m - 1 - q)
  }

  lemma ShiftIsGood(pat: seq<Byte>, suff: seq<int>, q: nat, v: int, border: int)
    requires |pat| > 0 && q < |pat| && AllSuff(pat, suff)
    requires FirstBorder(suff, q, border, |suff|)
    requires FirstMatch(suff, q, v, 1, border)
    ensures IsGoodShift(pat, q, v)
  {
    hide IsSuff, Plausible;
    var m := |pat|;
    forall s: nat | 1 <= s < m
      ensures Plausible(pat, q, s) <==> suff[m - 1 - s] == if s <= q then m - 1 - q else m - s
    {
      ShiftPlausible(pat, suff, q, s);
    }
    WholeShift(pat, q);
    if 1 <= v < m {
      SuffBound(pat, m - 1 - v, suff[m - 1 - v]);
    }
  }

  lemma ShiftPlausible(pat: seq<Byte>, suff: seq<int>, q: nat, s: nat)
    requires q < |pat| && AllSuff(pat, suff) && 1 <= s < |pat|
    ensures Plausible(pat, q, s) <==> suff[|pat| - 1 - s] == if s <= q then |pat| - 1 - q else |pat| - s
  {
    hide IsSuff, Plausible;
    if s <= q {
      PlausibleWithin(pat, q, s, suff[|pat| - 1 - s]);
    } else {
      PlausibleBeyond(pat, q, s, suff[|pat| - 1 - s]);
    }
  }

  lemma SuffBound(pat: seq<Byte>, i: nat, len: int)
    requires IsSuff(pat, i, len)
    ensures 0 <= len <= i + 1
  {
  }

  lemma WholeShift(pat: seq<Byte>, q: nat)
    requires q < |pat|
    ensures Plausible(pat, q, |pat|)
  {
  }

  method GoodSuffixShifts(pat: seq<Byte>, suff: array<int>, prep: array<int>)
    requires |pat| > 0 && suff != prep && prep.Length == |pat| + 256
    requires AllSuff(pat, suff[..])
    modifies prep
    ensures forall i :: 0 <= i < |pat| ==> IsGoodShift(pat, i, prep[i])
    ensures forall i :: |pat| <= i < prep.Length ==> prep[i] == old(prep[i])
  {
    var m := |pat|;
    BorderShifts(m, suff, prep);
    ghost var borders := prep[..m];
    MatchShifts(pat, suff, prep);
    forall q | 0 <= q < m
      ensures IsGoodShift(pat, q, prep[q])
    {
      ShiftIsGood(pat, suff[..], q, prep[q], borders[q]);
    }
  }

  /** First half of preBmGs(): shifts that leave a border of the pattern in place. */
  method BorderShifts(m: nat, suff: array<int>, prep: array<int>)
    requires m > 0 && suff != prep && suff.Length == m <= prep.Length
    modifies prep
    ensures forall q :: 0 <= q < m ==> FirstBorder(suff[..], q, prep[q], m)
    ensures forall i :: m <= i < prep.Length ==> prep[i] == old(prep[i])
  {
    FillWith(m, prep);
    var i, j := m - 1, 0;
    while i >= 0
      invariant -1 <= i < m && 0 <= j <= m
      invariant forall q :: 0 <= q < m ==> (prep[q] == m <==> j <= q)
      invariant forall q :: 0 <= q < m ==> FirstBorder(suff[..], q, prep[q], m - 1 - i)
      invariant forall q :: m <= q < prep.Length ==> prep[q] == old(prep[q])
    {
      if suff[i] == i + 1 {
        j := BorderAt(m, suff, prep, i, j);
      }
      i := i - 1;
    }
  }

  method FillWith(m: nat, prep: array<int>)
    requires m <= prep.Length
    modifies prep
    ensures forall q :: 0 <= q < m ==> prep[q] == m
    ensures forall q :: m <= q < prep.Length ==> prep[q] == old(prep[q])
  {
    var i := 0;
    while i < m
      invariant 0 <= i <= m
      invariant forall q :: 0 <= q < i ==> prep[q] == m
      invariant forall q :: m <= q < prep.Length ==> prep[q] == old(prep[q])
    {
      prep[i] := m;
      i := i + 1;
    }
  }

  /** The border `pat[..i + 1]` gives the shift of all positions before `m - 1 - i` that have none yet. */
  method BorderAt(m: nat, suff: array<int>, prep: array<int>, i: nat, j0: nat) returns (j: nat)
    requires suff != prep && suff.Length == m <= prep.Length && i < m && j0 <= m && suff[i] == i + 1
    requires forall q :: 0 <= q < m ==> (prep[q] == m <==> j0 <= q)
    requires forall q :: 0 <= q < m ==> FirstBorder(suff[..], q, prep[q], m - 1 - i)
    modifies prep
    ensures j <= m && forall q :: 0 <= q < m ==> (prep[q] == m <==> j <= q)
    ensures forall q :: 0 <= q < m ==> FirstBorder(suff[..], q, prep[q], m - i)
    ensures forall q :: m <= q < prep.Length ==> prep[q] == old(prep[q])
  {
    j := j0;
    while j < m - 1 - i
      invariant 0 <= j <= m
      invariant forall q :: 0 <= q < m ==> (prep[q] == m <==> j <= q)
      invariant forall q :: 0 <= q < j ==> FirstBorder(suff[..], q, prep[q], m - i)
      invariant forall q :: j <= q < m ==> FirstBorder(suff[..], q, prep[q], m - 1 - i)
      invariant forall q :: m <= q < prep.Length ==> prep[q] == old(prep[q])
    {
      if prep[j] == m {
        prep[j] := m - 1 - i;
      }
      j := j + 1;
    }
  }

  lemma NoMatchYet(suff: seq<int>, q: nat, v: int)
    requires |suff| > 0
    ensures FirstMatch(suff, q, v, |suff|, v)
  {
  }

  /** Reading one more suffix length, which stands for the next smaller shift. */
  lemma MatchStep(suff: seq<int>, q: nat, v: int, i: nat, other: int)
    requires i <= |suff| - 2 && FirstMatch(suff, q, v, |suff| - i, other)
    ensures FirstMatch(suff, q, if q == |suff| - 1 - suff[i] then |suff| - 1 - i else v, |suff| - 1 - i, other)
  {
  }

  /** Second half of preBmGs(): shifts that bring an equal suffix under the matched one; the last write is the least shift. */
  method MatchShifts(pat: seq<Byte>, suff: array<int>, prep: array<int>)
    requires |pat| > 0 && suff != prep && |pat| <= prep.Length
    requires AllSuff(pat, suff[..])
    modifies prep
    ensures forall q :: 0 <= q < |pat| ==> FirstMatch(suff[..], q, prep[q], 1, old(prep[q]))
    ensures forall i :: |pat| <= i < prep.Length ==> prep[i] == old(prep[i])
  {
    hide FirstMatch, IsSuff;
    var m, i := |pat|, 0;
    forall q | 0 <= q < m
      ensures FirstMatch(suff[..], q, prep[q], m, prep[q])
    {
      NoMatchYet(suff[..], q, prep[q]);
    }
    while i <= m - 2
      invariant 0 <= i <= m - 1
      invariant forall q :: 0 <= q < m ==> FirstMatch(suff[..], q, prep[q], m - i, old(prep[q]))
      invariant forall q :: m <= q < prep.Length ==> prep[q] == old(prep[q])
    {
      SuffBound(pat, i, suff[i]);
      forall q | 0 <= q < m
        ensures FirstMatch(suff[..], q, if q == m - 1 - suff[i] then m - 1 - i else prep[q], m - 1 - i, old(prep[q]))
      {
        MatchStep(suff[..], q, prep[q], i, old(prep[q]));
      }
      prep[m - 1 - suff[i]] := m - 1 - i;
      i := i + 1;
    }
  }

  // ---- preBmBc() --------------------------------------------------------------

  /** As `IsBadChar`, for the first `i` characters of the pattern. */
  ghost predicate BadCharSoFar(pat: seq<Byte>, c: int, d: int, i: int) {
    && 1 <= d <= |pat| && |pat| - i <= d
    && (d < |pat| ==> 0 <= |pat| - 1 - d && pat[|pat| - 1 - d] == c)
    && forall k :: 0 <= k < i && k < |pat| && |pat| - 1 - d < k ==> pat[k] != c
  }

  method BadCharacterShifts(pat: seq<Byte>, prep: array<int>)
    requires |pat| > 0 && prep.Length == |pat| + 256
    modifies prep
    ensures forall x :: |pat| <= x < |pat| + 256 ==> IsBadChar(pat, x - |pat|, prep[x])
    ensures forall i :: 0 <= i < |pat| ==> prep[i] == old(prep[i])
  {
    var m, i := |pat|, 0;
    while i < 256
      invariant 0 <= i <= 256
      invariant forall x :: m <= x < m + i ==> prep[x] == m
      invariant forall q :: 0 <= q < m ==> prep[q] == old(prep[q])
    {
      prep[m + i] := m;
      i := i + 1;
    }
    i := 0;
    while i < m - 1
      invariant 0 <= i <= m - 1
      invariant forall x :: m <= x < m + 256 ==> BadCharSoFar(pat, x - m, prep[x], i)
      invariant forall q :: 0 <= q < m ==> prep[q] == old(prep[q])
    {
      prep[m + pat[i]] := m - i - 1;
      i := i + 1;
    }
  }

  /** `ksBM_prep`: good-suffix shifts, then the 256 bad-character distances. */
  ghost predicate IsPrep(pat: seq<Byte>, prep: seq<int>) {
    && |prep| == |pat| + 256
    && (forall i :: 0 <= i < |pat| ==> IsGoodShift(pat, i, prep[i]))
    && (forall x :: |pat| <= x < |pat| + 256 ==> IsBadChar(pat, x - |pat|, prep[x]))
  }

  method Prep(pat: seq<Byte>) returns (prep: array<int>)
    requires |pat| > 0
    ensures fresh(prep) && IsPrep(pat, prep[..])
  {
    prep := new int[|pat| + 256](_ => 0);
    BadCharacterShifts(pat, prep);
    var suff := Suffixes(pat);
    GoodSuffixShifts(pat, suff, prep);
  }

  // ---- kmemmem ----------------------------------------------------------------

  ghost predicate Occurs(str: seq<Byte>, pat: seq<Byte>, j: int) {
    0 <= j <= |str| - |pat| && forall k :: 0 <= k < |pat| ==> pat[k] == str[j + k]
  }

  /** An occurrence further on is a plausible shift, so the good-suffix shift does not jump over it. */
  lemma GoodSuffixSafe(str: seq<Byte>, pat: seq<Byte>, j: int, i: nat, s: nat, shift: int)
    requires 0 <= j <= |str| - |pat| && i < |pat|
    requires pat[i] != str[i + j] && forall k :: i < k < |pat| ==> pat[k] == str[j + k]
    requires IsGoodShift(pat, i, shift) && 1 <= s < shift
    ensures !Occurs(str, pat, j + s)
  {
    hide IsGoodShift;
    assert !Plausible(pat, i, s) by {
      LeastShift(pat, i, shift, s);
    }
    if s <= i && pat[i - s] == pat[i] {
      assert pat[i - s] != str[(j + s) + (i - s)];
    } else {
      var k :| i < k < |pat| && s <= k && pat[k - s] != pat[k];
      assert pat[k - s] != str[(j + s) + (k - s)];
    }
  }

  lemma LeastShift(pat: seq<Byte>, i: nat, shift: int, s: nat)
    requires i < |pat| && IsGoodShift(pat, i, shift) && 1 <= s < shift
    ensures !Plausible(pat, i, s)
  {
  }

  /** An occurrence further on needs the text character under the mismatch, so the bad-character shift does not jump over it. */
  lemma BadCharacterSafe(str: seq<Byte>, pat: seq<Byte>, j: int, i: nat, s: nat, d: int)
    requires 0 <= j <= |str| - |pat| && i < |pat|
    requires IsBadChar(pat, str[i + j], d) && 1 <= s < d - |pat| + 1 + i
    ensures !Occurs(str, pat, j + s)
  {
    assert pat[i - s] != str[(j + s) + (i - s)];
  }

  /**
   Where `pat` first occurs in `str`, or none. A table prepared earlier for the same
   pattern may be passed in; the table used is handed back.
   */
  method Memmem(str: seq<Byte>, pat: seq<Byte>, prepared: array?<int>) returns (r: int, prep: array<int>)
    requires |pat| > 0
    requires prepared != null ==> IsPrep(pat, prepared[..])
    ensures r == -1 ==> forall j :: !Occurs(str, pat, j)
    ensures r != -1 ==> Occurs(str, pat, r) && forall j :: j < r ==> !Occurs(str, pat, j)
    ensures IsPrep(pat, prep[..]) && (prepared != null ==> prep == prepared)
  {
    if prepared == null {
      prep := Prep(pat);
    } else {
      prep := prepared;
    }
    var n, m, j := |str|, |pat|, 0;
    while j <= n - m
      invariant 0 <= j
      invariant forall k :: k < j ==> !Occurs(str, pat, k)
      decreases n - j
    {
      var i := m - 1;
      while i >= 0 && pat[i] == str[i + j]
        invariant -1 <= i < m
        invariant forall k :: i < k < m ==> pat[k] == str[j + k]
      {
        i := i - 1;
      }
      if i < 0 {
        return j, prep;
      }
      var c := prep[m + str[i + j]];
      var max := c - m + 1 + i;
      if max < prep[i] {
        max := prep[i];
      }
      forall k | j < k < j + max
        ensures !Occurs(str, pat, k)
      {
        if k - j < prep[i] {
          GoodSuffixSafe(str, pat, j, i, k - j, prep[i]);
        } else {
          BadCharacterSafe(str, pat, j, i, k - j, c);
        }
      }
      assert !Occurs(str, pat, j);
      j := j + max;
    }
    r := -1;
  }
}
