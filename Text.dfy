/** Character and string helpers shared by the model: ASCII case folding,
    prefix and substring tests, lexicographic (code point) order, decimal
    rendering of naturals, and Python's `str.split` / `str.join` on a
    non-empty separator. */
module Text {

  datatype Option<T> = None | Some(value: T)

  // ---------------------------------------------------------------------
  // Case folding
  // ---------------------------------------------------------------------

  /** Lower-cases an ASCII capital letter and keeps every other character. */
  function LowerChar(c: char): char
  {
    if 'A' <= c <= 'Z' then (c as int + 32) as char else c
  }

  /** Lower-cases every character of `s`. */
  function Lower(s: string): (r: string)
    ensures |r| == |s|
    ensures forall i :: 0 <= i < |s| ==> r[i] == LowerChar(s[i])
  {
    if s == [] then [] else [LowerChar(s[0])] + Lower(s[1..])
  }

  // ---------------------------------------------------------------------
  // Occurrences, prefixes and substrings
  // ---------------------------------------------------------------------

  /** `t` occurs in `s` starting at position `j`. */
  predicate OccursAt(s: string, t: string, j: int)
  {
    0 <= j && j + |t| <= |s| && s[j..j + |t|] == t
  }

  /** Python's `t in s`: `t` occurs somewhere in `s` (the empty string occurs everywhere). */
  predicate Contains(s: string, t: string)
  {
    exists j | 0 <= j <= |s| - |t| :: OccursAt(s, t, j)
  }

  lemma PrefixIsContained(s: string, t: string)
    requires t <= s
    ensures Contains(s, t)
  {
    assert OccursAt(s, t, 0);
  }

  /** The first position at which `t` occurs in `s`, if any. */
  function Find(s: string, t: string): (r: Option<nat>)
    requires |t| > 0
    ensures r.Some? ==> OccursAt(s, t, r.value)
    ensures r.Some? ==> forall j :: 0 <= j < r.value ==> !OccursAt(s, t, j)
    ensures r.None? <==> !Contains(s, t)
    decreases |s|
  {
    if |s| < |t| then None
    else if t <= s then (assert OccursAt(s, t, 0); Some(0))
    else
      OccursShifted(s, t);
      assert !OccursAt(s, t, 0);
      match Find(s[1..], t)
      case None => None
      case Some(k) => Some(k + 1)
  }

  lemma OccursShifted(s: string, t: string)
    requires |s| > 0
    ensures forall j :: 1 <= j ==> (OccursAt(s, t, j) <==> OccursAt(s[1..], t, j - 1))
    ensures forall j :: 0 <= j ==> (OccursAt(s[1..], t, j) <==> OccursAt(s, t, j + 1))
  {
    forall j | 1 <= j ensures OccursAt(s, t, j) <==> OccursAt(s[1..], t, j - 1) {
      if j + |t| <= |s| { SliceShift(s, j, |t|); }
    }
  }

  lemma SliceShift(s: string, j: nat, n: nat)
    requires 1 <= j && j + n <= |s|
    ensures s[1..][j - 1..j - 1 + n] == s[j..j + n]
  {
    var a, b := s[1..][j - 1..j - 1 + n], s[j..j + n];
    assert |a| == |b|;
    forall i | 0 <= i < n ensures a[i] == b[i] { }
  }

  /** If the separator starts with a character that does not appear in `s[..k]`
      and the separator occurs at `k`, then `k` is its first occurrence. */
  lemma FindAtFirstChar(s: string, t: string, k: nat)
    requires |t| > 0 && OccursAt(s, t, k)
    requires forall j :: 0 <= j < k ==> s[j] != t[0]
    ensures Find(s, t) == Some(k)
  {
    assert Contains(s, t) by { assert OccursAt(s, t, k); }
    var i := Find(s, t).value;
    assert s[i..i + |t|][0] == t[0];
    assert i >= k;
  }

  /** A string none of whose characters is `c` does not contain any string that starts with `c`. */
  lemma NotContainsByFirstChar(s: string, t: string)
    requires |t| > 0 && t[0] !in s
    ensures !Contains(s, t)
  {
    forall j | 0 <= j <= |s| - |t| ensures !OccursAt(s, t, j) {
      assert s[j] in s;
      assert s[j..j + |t|][0] == s[j];
    }
  }

  // ---------------------------------------------------------------------
  // Split and join (Python's str.split(sep) and sep.join(parts))
  // ---------------------------------------------------------------------

  /** `sep.join(parts)`. */
  function Join(parts: seq<string>, sep: string): string
  {
    if |parts| == 0 then []
    else if |parts| == 1 then parts[0]
    else parts[0] + sep + Join(parts[1..], sep)
  }

  /** `s.split(sep)` for a non-empty separator: the pieces between the
      occurrences of `sep`, found left to right without overlap. Joining the
      pieces with `sep` gives back `s`, and no piece contains `sep`. */
  function Split(s: string, sep: string): (parts: seq<string>)
    requires |sep| > 0
    ensures |parts| >= 1
    ensures Join(parts, sep) == s
    ensures forall i :: 0 <= i < |parts| ==> !Contains(parts[i], sep)
    decreases |s|
  {
    match Find(s, sep)
    case None => [s]
    case Some(k) =>
      FirstPieceClean(s, sep, k);
      assert s == s[..k] + sep + s[k + |sep|..];
      [s[..k]] + Split(s[k + |sep|..], sep)
  }

  /** Where the first separator is at `k`, the split is the piece before it
      followed by the split of the rest. */
  lemma SplitAtFirst(s: string, sep: string, k: nat)
    requires |sep| > 0 && Find(s, sep) == Some(k)
    ensures k + |sep| <= |s|
    ensures Split(s, sep) == [s[..k]] + Split(s[k + |sep|..], sep)
  {
  }

  lemma FirstPieceClean(s: string, sep: string, k: nat)
    requires |sep| > 0 && k <= |s| && forall j :: 0 <= j < k ==> !OccursAt(s, sep, j)
    ensures !Contains(s[..k], sep)
  {
    forall j | 0 <= j <= k - |sep| ensures !OccursAt(s[..k], sep, j) {
      assert !OccursAt(s, sep, j);
      assert s[..k][j..j + |sep|] == s[j..j + |sep|];
    }
  }

  /** Python's `parts[-1]`. */
  function Last(parts: seq<string>): string
    requires |parts| > 0
  {
    parts[|parts| - 1]
  }

  lemma LastOfCons(piece: string, parts: seq<string>)
    requires |parts| > 0
    ensures Last([piece] + parts) == Last(parts)
  {
  }

  /** A split on one character at a first piece free of it gives that piece
      followed by the split of the rest. */
  lemma SplitAfterFirstPiece(head: string, c: char, rest: string)
    requires c !in head
    ensures Split(head + [c] + rest, [c]) == [head] + Split(rest, [c])
  {
    var s := head + [c] + rest;
    assert Find(s, [c]) == Some(|head|) by {
      assert OccursAt(s, [c], |head|) by {
        assert s[|head|..|head| + 1] == [c];
      }
      forall j | 0 <= j < |head| ensures s[j] != [c][0] {
        assert s[j] == head[j];
        assert head[j] in head;
      }
      FindAtFirstChar(s, [c], |head|);
    }
    SplitAtFirst(s, [c], |head|);
    assert s[..|head|] == head;
    assert s[|head| + 1..] == rest;
  }

  /** A string without the separator character splits into itself. */
  lemma SplitWithout(s: string, c: char)
    requires c !in s
    ensures Split(s, [c]) == [s]
  {
    NotContainsByFirstChar(s, [c]);
  }

  /** Splitting past a first occurrence at `k` leaves the last piece to the
      rest of the string. */
  lemma LastPieceSkipsFirst(a: string, c: char, b: string, k: nat)
    requires k < |a| && a[k] == c && c !in a[..k]
    ensures Last(Split(a + [c] + b, [c])) == Last(Split(a[k + 1..] + [c] + b, [c]))
  {
    var rest := a[k + 1..] + [c] + b;
    assert a + [c] + b == a[..k] + [c] + rest by {
      assert a == a[..k] + [c] + a[k + 1..];
    }
    SplitAfterFirstPiece(a[..k], c, rest);
    LastOfCons(a[..k], Split(rest, [c]));
  }

  /** The position of the last `c` in `s`. */
  function {:induction false} LastIndex(s: string, c: char): (k: nat)
    requires c in s
    ensures k < |s| && s[k] == c && c !in s[k + 1..]
  {
    if s[|s| - 1] == c then |s| - 1
    else
      var init := s[..|s| - 1];
      assert c in init by {
        var j :| 0 <= j < |s| && s[j] == c;
        assert init[j] == c;
      }
      var k := LastIndex(init, c);
      assert s[k + 1..] == init[k + 1..] + [s[|s| - 1]];
      k
  }

  /** `(a + c + b).split(c)[-1] == b` when `b` holds no `c`: the last piece of a
      split on one character is what follows its last occurrence. */
  lemma {:induction false} LastPieceAfterLastSeparator(a: string, c: char, b: string)
    requires c !in b
    ensures Last(Split(a + [c] + b, [c])) == b
    decreases |a|
  {
    match Find(a, [c])
    case None =>
      assert c !in a by {
        if c in a {
          var j :| 0 <= j < |a| && a[j] == c;
          assert OccursAt(a, [c], j) by {
            assert a[j..j + 1] == [c];
          }
        }
      }
      SplitAfterFirstPiece(a, c, b);
      SplitWithout(b, c);
      LastOfCons(a, [b]);
    case Some(k) =>
      assert a[k] == c by {
        assert a[k..k + 1] == [c];
      }
      assert c !in a[..k] by {
        forall j | 0 <= j < k ensures a[..k][j] != c {
          assert !OccursAt(a, [c], j);
          assert a[j..j + 1] == [a[j]];
        }
      }
      LastPieceSkipsFirst(a, c, b, k);
      LastPieceAfterLastSeparator(a[k + 1..], c, b);
  }

  // ---------------------------------------------------------------------
  // Lexicographic order on code points (Python / SQL "C" collation)
  // ---------------------------------------------------------------------

  /** Strict lexicographic order of code points. */
  predicate LexLt(a: string, b: string)
  {
    if a == [] then b != []
    else if b == [] then false
    else a[0] < b[0] || (a[0] == b[0] && LexLt(a[1..], b[1..]))
  }

  predicate LexLe(a: string, b: string)
  {
    a == b || LexLt(a, b)
  }

  lemma {:induction false} LexLtIrreflexive(a: string)
    ensures !LexLt(a, a)
  {
    if a != [] { LexLtIrreflexive(a[1..]); }
  }

  lemma {:induction false} LexLtTransitive(a: string, b: string, c: string)
    requires LexLt(a, b) && LexLt(b, c)
    ensures LexLt(a, c)
  {
    if a != [] && b != [] && c != [] && a[0] == b[0] == c[0] {
      LexLtTransitive(a[1..], b[1..], c[1..]);
    }
  }

  lemma {:induction false} LexLtTrichotomy(a: string, b: string)
    ensures LexLt(a, b) || a == b || LexLt(b, a)
  {
    if a != [] && b != [] && a[0] == b[0] {
      LexLtTrichotomy(a[1..], b[1..]);
      if a[1..] == b[1..] { assert a == [a[0]] + a[1..] && b == [b[0]] + b[1..]; }
    }
  }

  lemma LexLtAsymmetric(a: string, b: string)
    requires LexLt(a, b)
    ensures !LexLt(b, a)
  {
    if LexLt(b, a) {
      LexLtTransitive(a, b, a);
      LexLtIrreflexive(a);
    }
  }

  // ---------------------------------------------------------------------
  // Decimal rendering of naturals (Python's str(int) for n >= 0)
  // ---------------------------------------------------------------------

  predicate IsDigit(c: char)
  {
    '0' <= c <= '9'
  }

  function DigitChar(d: nat): (c: char)
    requires d < 10
  {
    ('0' as int + d) as char
  }

  function DigitValue(c: char): nat
    requires IsDigit(c)
  {
    c as int - '0' as int
  }

  /** Reads a string of decimal digits back as a natural. */
  function ParseNat(s: string): nat
    requires forall i :: 0 <= i < |s| ==> IsDigit(s[i])
  {
    if s == [] then 0 else ParseNat(s[..|s| - 1]) * 10 + DigitValue(s[|s| - 1])
  }

  /** The decimal digits of `n`, most significant first, with no leading zero. */
  function NatToString(n: nat): (r: string)
    ensures |r| > 0
    ensures forall i :: 0 <= i < |r| ==> IsDigit(r[i])
    ensures |r| > 1 ==> r[0] != '0'
  {
    if n < 10 then [DigitChar(n)] else NatToString(n / 10) + [DigitChar(n % 10)]
  }

  /** Rendering then reading back gives the same number. */
  lemma {:induction false} ParseNatToString(n: nat)
    ensures ParseNat(NatToString(n)) == n
  {
    var r := NatToString(n);
    if n >= 10 {
      ParseNatToString(n / 10);
      assert r[..|r| - 1] == NatToString(n / 10);
    }
  }

  /** Python's `str(n)` for any integer. */
  function IntToString(n: int): (r: string)
    ensures forall i :: 0 <= i < |r| ==> r[i] == '-' || IsDigit(r[i])
  {
    if n < 0 then "-" + NatToString(-n) else NatToString(n)
  }

  /** `n` left-padded with zeros to two digits, as strftime's `%d`, `%m`, `%H`, `%M`. */
  function Pad2(n: nat): (r: string)
    requires n < 100
    ensures |r| == 2 && IsDigit(r[0]) && IsDigit(r[1])
    ensures ParseNat(r) == n
  {
    var r := [DigitChar(n / 10), DigitChar(n % 10)];
    assert r[..1] == [r[0]] && r[..1][..0] == [];
    assert ParseNat(r[..1]) == n / 10;
    r
  }
}
