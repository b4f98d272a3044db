/**
 * The PHP string built-ins the core relies on: `strpos(...) !== false`,
 * `explode` with a one-character separator, `trim` with its default
 * character list, and the decimal rendering of a non-negative integer.
 */
module PhpStrings {

  /** `sub` occurs in `s` at index `i`. */
  predicate OccursAt(s: string, sub: string, i: nat) {
    i + |sub| <= |s| && s[i..i + |sub|] == sub
  }

  /** `strpos(s, sub) !== false`: `sub` occurs in `s` at some index. */
  predicate Contains(s: string, sub: string) {
    exists i: nat | i <= |s| :: OccursAt(s, sub, i)
  }

  /** A non-empty needle can only be found in `s` if its first character occurs in `s`. */
  lemma ContainsFirstChar(s: string, sub: string)
    requires |sub| > 0 && Contains(s, sub)
    ensures sub[0] in s
  {
    var i: nat :| i <= |s| && OccursAt(s, sub, i);
    assert s[i..i + |sub|][0] == s[i];
  }

  /** `implode(sep, pieces)`: the pieces joined by `sep`. */
  function Implode(sep: char, pieces: seq<string>): string {
    if |pieces| == 0 then []
    else if |pieces| == 1 then pieces[0]
    else pieces[0] + [sep] + Implode(sep, pieces[1..])
  }

  /**
   * One character in front of the pieces of the rest: a separator opens a new
   * empty first piece, any other character joins the first piece.
   */
  function Push(sep: char, c: char, pieces: seq<string>): (r: seq<string>)
    requires |pieces| >= 1
    ensures |r| >= 1
  {
    if c == sep then [[]] + pieces else [[c] + pieces[0]] + pieces[1..]
  }

  /**
   * `explode(sep, s)`: the maximal `sep`-free pieces of `s`, in order. There is
   * always at least one piece (`explode(';', '')` is `['']`).
   */
  function Explode(sep: char, s: string): (pieces: seq<string>)
    ensures |pieces| >= 1
  {
    if s == [] then [[]]
    else
      var rest := Explode(sep, s[1..]);
      if s[0] == sep then [[]] + rest else [[s[0]] + rest[0]] + rest[1..]
  }

  /** Joining pushed pieces puts the character in front of the joined rest. */
  lemma ImplodePush(sep: char, c: char, p: seq<string>)
    requires |p| >= 1
    ensures Implode(sep, Push(sep, c, p)) == [c] + Implode(sep, p)
  {
    var q := Push(sep, c, p);
    if c == sep {
      assert q[1..] == p;
    } else if |p| > 1 {
      assert q[1..] == p[1..];
    }
  }

  /** Joining the pieces again gives back the exploded string. */
  lemma {:induction false} ImplodeExplode(sep: char, s: string)
    ensures Implode(sep, Explode(sep, s)) == s
  {
    if s != [] {
      ImplodeExplode(sep, s[1..]);
      ImplodePush(sep, s[0], Explode(sep, s[1..]));
      assert s == [s[0]] + s[1..];
    }
  }

  /** A string without `sep` is a single piece. */
  lemma {:induction false} ExplodeNoSep(sep: char, s: string)
    requires sep !in s
    ensures Explode(sep, s) == [s]
  {
    if s != [] {
      ExplodeNoSep(sep, s[1..]);
      assert s == [s[0]] + s[1..];
    }
  }

  /** One step of `explode`: how the first character joins the pieces of the rest. */
  lemma ExplodeCons(sep: char, c: char, t: string)
    ensures Explode(sep, [c] + t) == Push(sep, c, Explode(sep, t))
  {
    assert ([c] + t)[1..] == t;
  }

  /** Pushing a character only touches the first piece. */
  lemma PushAppend(sep: char, c: char, p: seq<string>, q: seq<string>)
    requires |p| >= 1
    ensures Push(sep, c, p + q) == Push(sep, c, p) + q
  {
    if c != sep {
      assert (p + q)[0] == p[0];
      assert (p + q)[1..] == p[1..] + q;
    }
  }

  /** Exploding `a + [sep] + b` gives the pieces of `a` followed by the pieces of `b`. */
  lemma {:induction false} ExplodeConcat(sep: char, a: string, b: string)
    ensures Explode(sep, a + [sep] + b) == Explode(sep, a) + Explode(sep, b)
  {
    if a == [] {
      assert a + [sep] + b == [sep] + b;
      ExplodeCons(sep, sep, b);
    } else {
      var t := a[1..];
      assert a == [a[0]] + t;
      assert a + [sep] + b == [a[0]] + (t + [sep] + b);
      ExplodeConcat(sep, t, b);
      ExplodeCons(sep, a[0], t + [sep] + b);
      ExplodeCons(sep, a[0], t);
      PushAppend(sep, a[0], Explode(sep, t), Explode(sep, b));
    }
  }

  /** No piece contains the separator. */
  lemma {:induction false} ExplodePiecesSepFree(sep: char, s: string)
    ensures forall k :: 0 <= k < |Explode(sep, s)| ==> sep !in Explode(sep, s)[k]
  {
    if s != [] {
      ExplodePiecesSepFree(sep, s[1..]);
      ExplodeCons(sep, s[0], s[1..]);
      assert s == [s[0]] + s[1..];
    }
  }

  /** Every character of a piece comes from the exploded string. */
  lemma {:induction false} ExplodePieceChars(sep: char, s: string, k: nat)
    requires k < |Explode(sep, s)|
    ensures forall c :: c in Explode(sep, s)[k] ==> c in s
  {
    if s != [] {
      ExplodeCons(sep, s[0], s[1..]);
      assert s == [s[0]] + s[1..];
      var rest := Explode(sep, s[1..]);
      if s[0] == sep {
        if k > 0 { ExplodePieceChars(sep, s[1..], k - 1); }
      } else if k == 0 {
        ExplodePieceChars(sep, s[1..], 0);
      } else {
        ExplodePieceChars(sep, s[1..], k);
      }
    }
  }

  /** Two `sep`-free strings joined by `sep` explode into exactly those two pieces. */
  lemma ExplodeTwo(sep: char, a: string, b: string)
    requires sep !in a && sep !in b
    ensures Explode(sep, a + [sep] + b) == [a, b]
  {
    ExplodeConcat(sep, a, b);
    ExplodeNoSep(sep, a);
    ExplodeNoSep(sep, b);
  }

  /** The other half of the round trip: exploding joined `sep`-free pieces gives the pieces back. */
  lemma {:induction false} ExplodeImplode(sep: char, pieces: seq<string>)
    requires |pieces| >= 1
    requires forall k :: 0 <= k < |pieces| ==> sep !in pieces[k]
    ensures Explode(sep, Implode(sep, pieces)) == pieces
  {
    ExplodeNoSep(sep, pieces[0]);
    if |pieces| > 1 {
      ExplodeImplode(sep, pieces[1..]);
      ExplodeConcat(sep, pieces[0], Implode(sep, pieces[1..]));
    }
  }

  /** There is a single piece exactly when `sep` does not occur. */
  lemma ExplodeSingle(sep: char, s: string)
    ensures |Explode(sep, s)| == 1 <==> sep !in s
  {
    if sep in s {
      var i :| 0 <= i < |s| && s[i] == sep;
      assert s == s[..i] + [sep] + s[i + 1..];
      ExplodeConcat(sep, s[..i], s[i + 1..]);
    } else {
      ExplodeNoSep(sep, s);
    }
  }

  /** The characters PHP's `trim` strips by default: " \t\n\r\0\x0B". */
  predicate IsTrimChar(c: char) {
    c == ' ' || c == '\t' || c == '\n' || c == '\r' || c == '\0' || c == '\U{B}'
  }

  /** The number of leading trim characters of `s`: where `ltrim` starts the result. */
  function TrimStart(s: string): (a: nat)
    ensures a <= |s|
    ensures forall k :: 0 <= k < a ==> IsTrimChar(s[k])
    ensures a == |s| || !IsTrimChar(s[a])
  {
    if s != [] && IsTrimChar(s[0]) then 1 + TrimStart(s[1..]) else 0
  }

  /** The length of `s` without its trailing trim characters: where `rtrim` ends the result. */
  function TrimEnd(s: string): (b: nat)
    ensures b <= |s|
    ensures forall k :: b <= k < |s| ==> IsTrimChar(s[k])
    ensures b == 0 || !IsTrimChar(s[b - 1])
  {
    if s != [] && IsTrimChar(s[|s| - 1]) then TrimEnd(s[..|s| - 1]) else |s|
  }

  /** `r` is `s` from index `a` on, with only trim characters dropped around it. */
  predicate TrimmedFrom(s: string, r: string, a: nat) {
    a + |r| <= |s| && r == s[a..a + |r|] &&
    (forall k :: 0 <= k < a ==> IsTrimChar(s[k])) &&
    (forall k :: a + |r| <= k < |s| ==> IsTrimChar(s[k]))
  }

  /** A slice of `s` keeps only characters of `s`. */
  lemma SliceChars(s: string, a: nat, b: nat)
    requires a <= b <= |s|
    ensures forall c :: c in s[a..b] ==> c in s
  {
    forall c | c in s[a..b] ensures c in s {
      var i :| 0 <= i < b - a && s[a..b][i] == c;
      assert s[a + i] == c;
    }
  }

  /** When some character is kept, the kept slice is non-empty. */
  lemma TrimStartBeforeEnd(s: string)
    requires TrimStart(s) < |s|
    ensures TrimStart(s) < TrimEnd(s)
  {
  }

  /**
   * `trim(s)`: `s` with its leading and trailing trim characters dropped, the
   * middle kept as it is; no trim character is left at either end.
   */
  function Trim(s: string): (r: string)
    ensures exists a: nat :: TrimmedFrom(s, r, a)
    ensures r == [] || (!IsTrimChar(r[0]) && !IsTrimChar(r[|r| - 1]))
    ensures forall c :: c in r ==> c in s
  {
    var a := TrimStart(s);
    if a == |s| then
      assert TrimmedFrom(s, [], a);
      []
    else
      TrimStartBeforeEnd(s);
      var b := TrimEnd(s);
      SliceChars(s, a, b);
      assert TrimmedFrom(s, s[a..b], a);
      s[a..b]
  }

  /** A string that already has no trim character at either end is left unchanged. */
  lemma TrimTrimmed(s: string)
    requires s == [] || (!IsTrimChar(s[0]) && !IsTrimChar(s[|s| - 1]))
    ensures Trim(s) == s
  {
  }

  /** Trimming twice is trimming once. */
  lemma TrimIdempotent(s: string)
    ensures Trim(Trim(s)) == Trim(s)
  {
    TrimTrimmed(Trim(s));
  }

  /** The decimal digit for `d`. */
  function DigitChar(d: nat): (c: char)
    requires d < 10
    ensures '0' <= c <= '9'
  {
    (48 + d) as char
  }

  /** The decimal rendering of `n`, as PHP writes an integer into a string. */
  function NatToString(n: nat): (s: string)
    ensures |s| >= 1
    ensures forall k :: 0 <= k < |s| ==> '0' <= s[k] <= '9'
    decreases n
  {
    if n < 10 then [DigitChar(n)] else NatToString(n / 10) + [DigitChar(n % 10)]
  }

  /** Different numbers have different renderings. */
  lemma {:induction false} NatToStringInjective(a: nat, b: nat)
    requires NatToString(a) == NatToString(b)
    ensures a == b
  {
    var sa, sb := NatToString(a), NatToString(b);
    assert a >= 10 ==> |sa| >= 2 by {
      if a >= 10 { assert |NatToString(a / 10)| >= 1; }
    }
    assert b >= 10 ==> |sb| >= 2 by {
      if b >= 10 { assert |NatToString(b / 10)| >= 1; }
    }
    if a >= 10 {
      assert sa[|sa| - 1] == DigitChar(a % 10) && sb[|sb| - 1] == DigitChar(b % 10);
      assert sa[..|sa| - 1] == NatToString(a / 10);
      assert sb[..|sb| - 1] == NatToString(b / 10);
      NatToStringInjective(a / 10, b / 10);
    } else {
      assert sa[0] == DigitChar(a) && sb[0] == DigitChar(b);
    }
  }
}
