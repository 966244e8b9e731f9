/** String operations shared by the Python services and the TypeScript
    client: `split`, `join`, `replace`, `strip`/`trim`, substring tests,
    slicing and decimal conversion. Strings are sequences of characters. */
module Text {
  import opened Wrappers

  // ---------------------------------------------------------------------
  // Substring search

  /** `pat` occurs in `s` starting at index `i`. */
  predicate OccursAt(s: string, pat: string, i: nat)
  {
    i + |pat| <= |s| && s[i..i + |pat|] == pat
  }

  /** Index of the first occurrence of `pat` in `s` at or after `from`. */
  function IndexFrom(s: string, pat: string, from: nat): (r: Option<nat>)
    ensures r.Some? ==> from <= r.value && OccursAt(s, pat, r.value)
    ensures r.Some? ==> forall j :: from <= j < r.value ==> !OccursAt(s, pat, j)
    ensures r.None? ==> forall j :: from <= j ==> !OccursAt(s, pat, j)
    decreases |s| - from
  {
    if from + |pat| > |s| then None
    else if OccursAt(s, pat, from) then Some(from)
    else IndexFrom(s, pat, from + 1)
  }

  /** Index of the first occurrence of `pat` in `s`, as Python's `str.find`. */
  function IndexOf(s: string, pat: string): (r: Option<nat>)
    ensures r.Some? <==> exists i :: OccursAt(s, pat, i)
    ensures r.Some? ==> OccursAt(s, pat, r.value) && forall j :: 0 <= j < r.value ==> !OccursAt(s, pat, j)
  {
    IndexFrom(s, pat, 0)
  }

  /** Python's `pat in s`. */
  predicate Contains(s: string, pat: string)
  {
    IndexOf(s, pat).Some?
  }

  /** A one-character pattern occurs exactly where that character stands. */
  lemma OccursAtChar(s: string, c: char, i: nat)
    ensures OccursAt(s, [c], i) <==> i < |s| && s[i] == c
  {
    if i < |s| {
      assert |s[i..i + 1]| == 1 && s[i..i + 1][0] == s[i];
    }
  }

  lemma ContainsChar(s: string, c: char)
    ensures Contains(s, [c]) <==> c in s
  {
    if c in s {
      var i :| 0 <= i < |s| && s[i] == c;
      OccursAtChar(s, c, i);
    }
    if Contains(s, [c]) {
      var i := IndexOf(s, [c]).value;
      OccursAtChar(s, c, i);
    }
  }

  /** `s.startswith(p)` / `s.startsWith(p)`. */
  predicate StartsWith(s: string, p: string)
  {
    p <= s
  }

  /** `s.endswith(p)`. */
  predicate EndsWith(s: string, p: string)
  {
    |p| <= |s| && s[|s| - |p|..] == p
  }

  // ---------------------------------------------------------------------
  // split / join / replace

  /** `s.split(sep)` for a non-empty separator (the same in Python and in
      JavaScript): the pieces between successive occurrences of `sep`. */
  function Split(s: string, sep: string): (parts: seq<string>)
    requires |sep| > 0
    ensures |parts| >= 1
    decreases |s|
  {
    match IndexOf(s, sep)
    case None => [s]
    case Some(i) => [s[..i]] + Split(s[i + |sep|..], sep)
  }

  /** `sep.join(parts)`. */
  function Join(parts: seq<string>, sep: string): string
  {
    if |parts| == 0 then ""
    else if |parts| == 1 then parts[0]
    else parts[0] + sep + Join(parts[1..], sep)
  }

  /** Joining the pieces of a split with the same separator gives the
      original string back. */
  lemma {:induction false} JoinSplit(s: string, sep: string)
    requires |sep| > 0
    ensures Join(Split(s, sep), sep) == s
    decreases |s|
  {
    match IndexOf(s, sep)
    case None =>
    case Some(i) =>
      var rest := s[i + |sep|..];
      var tail := Split(rest, sep);
      JoinSplit(rest, sep);
      assert Split(s, sep) == [s[..i]] + tail;
      JoinCons(s[..i], tail, sep);
      assert s == s[..i] + sep + rest by {
        assert s[i..i + |sep|] == sep;
        assert s == s[..i] + s[i..i + |sep|] + rest;
      }
  }

  /** Joining a non-empty list behind a first piece puts one separator
      between them. */
  lemma JoinCons(x: string, parts: seq<string>, sep: string)
    requires |parts| >= 1
    ensures Join([x] + parts, sep) == x + sep + Join(parts, sep)
  {
    assert ([x] + parts)[1..] == parts;
  }

  /** When the first occurrence of `sep` is at `i`, the first piece is
      everything before it and the rest is the split of what follows. */
  lemma SplitFirst(s: string, sep: string, i: nat)
    requires |sep| > 0 && OccursAt(s, sep, i)
    requires forall j :: 0 <= j < i ==> !OccursAt(s, sep, j)
    ensures Split(s, sep) == [s[..i]] + Split(s[i + |sep|..], sep)
  {
    assert IndexOf(s, sep) == Some(i);
  }

  /** When `sep` occurs first at `i`, the split has a second piece. */
  lemma SplitFirstOccurs(s: string, sep: string, i: nat)
    requires |sep| > 0 && OccursAt(s, sep, i)
    requires forall j :: 0 <= j < i ==> !OccursAt(s, sep, j)
    ensures Contains(s, sep) && |Split(s, sep)| >= 2
    ensures Split(s, sep)[1] == Split(s[i + |sep|..], sep)[0]
  {
    SplitFirst(s, sep, i);
  }

  /** The first piece of a split runs up to the first occurrence. */
  lemma SplitHead(s: string, sep: string)
    requires |sep| > 0
    ensures IndexOf(s, sep).None? ==> Split(s, sep)[0] == s
    ensures IndexOf(s, sep).Some? ==> Split(s, sep)[0] == s[..IndexOf(s, sep).value]
  {
  }

  /** A split of a string in which `sep` does not occur is that string alone. */
  lemma SplitAbsent(s: string, sep: string)
    requires |sep| > 0 && forall j :: 0 <= j < |s| ==> !OccursAt(s, sep, j)
    ensures Split(s, sep) == [s]
  {
  }

  /** Splitting on one character leaves no piece containing it. */
  lemma {:induction false} SplitCharPieces(s: string, c: char)
    ensures forall p :: p in Split(s, [c]) ==> c !in p
    decreases |s|
  {
    match IndexOf(s, [c])
    case None =>
      forall j | 0 <= j < |s| ensures s[j] != c {
        OccursAtChar(s, c, j);
      }
    case Some(i) =>
      SplitCharPieces(s[i + 1..], c);
      forall j | 0 <= j < i ensures s[..i][j] != c {
        OccursAtChar(s, c, j);
      }
  }

  /** Every piece of a split is made of characters of the string. */
  lemma {:induction false} SplitPiecesWithin(s: string, sep: string)
    requires |sep| > 0
    ensures forall p, x :: p in Split(s, sep) && x in p ==> x in s
    decreases |s|
  {
    match IndexOf(s, sep)
    case None =>
    case Some(i) =>
      var rest := s[i + |sep|..];
      var tail := Split(rest, sep);
      SplitPiecesWithin(rest, sep);
      assert Split(s, sep) == [s[..i]] + tail;
      forall p, x | p in [s[..i]] + tail && x in p ensures x in s {
        if p in tail {
          assert x in rest;
          var j :| 0 <= j < |rest| && rest[j] == x;
          assert s[i + |sep| + j] == x;
        } else {
          var j :| 0 <= j < |p| && p[j] == x;
          assert s[j] == x;
        }
      }
  }

  /** The last piece of a split on `c` is what follows the last `c`. */
  lemma SplitCharLast(p: string, c: char, q: string)
    requires c !in q
    ensures var parts := Split(p + [c] + q, [c]); parts[|parts| - 1] == q
  {
    var s := p + [c] + q;
    assert s[|p|] == c && s[|p| + 1..] == q;
    SplitCharLastAt(s, c, |p|);
  }

  /** The same, for the last `c` of `s` at index `k`. */
  lemma {:induction false} SplitCharLastAt(s: string, c: char, k: nat)
    requires k < |s| && s[k] == c && c !in s[k + 1..]
    ensures var parts := Split(s, [c]); parts[|parts| - 1] == s[k + 1..]
    decreases k
  {
    OccursAtChar(s, c, k);
    var i := IndexOf(s, [c]).value;
    assert i <= k;
    var t := s[i + 1..];
    var tail := Split(t, [c]);
    assert Split(s, [c]) == [s[..i]] + tail by {
      SplitFirst(s, [c], i);
    }
    if i == k {
      assert tail == [s[k + 1..]] by {
        assert t == s[k + 1..];
        SplitCharAbsent(t, c);
      }
    } else {
      var k' := k - i - 1;
      assert t[k'] == c && t[k' + 1..] == s[k + 1..];
      SplitCharLastAt(t, c, k');
    }
  }

  /** Splitting `p + [c] + rest` on `c`, where `p` does not contain `c`,
      gives `p` followed by the pieces of `rest`. */
  lemma SplitCharCons(p: string, c: char, rest: string)
    requires c !in p
    ensures Split(p + [c] + rest, [c]) == [p] + Split(rest, [c])
  {
    var s := p + [c] + rest;
    OccursAtChar(s, c, |p|);
    forall j | 0 <= j < |p| ensures !OccursAt(s, [c], j) {
      OccursAtChar(s, c, j);
    }
    assert IndexOf(s, [c]) == Some(|p|);
    assert s[..|p|] == p && s[|p| + 1..] == rest;
  }

  /** A split on `c` of a string without `c` is that string alone. */
  lemma SplitCharAbsent(s: string, c: char)
    requires c !in s
    ensures Split(s, [c]) == [s]
  {
    ContainsChar(s, c);
  }

  /** `s.replace(pat, rep)`: every non-overlapping occurrence, left to right. */
  function ReplaceAll(s: string, pat: string, rep: string): string
    requires |pat| > 0
  {
    Join(Split(s, pat), rep)
  }

  /** Replacing a pattern that does not occur changes nothing. */
  lemma ReplaceAbsent(s: string, pat: string, rep: string)
    requires |pat| > 0 && !Contains(s, pat)
    ensures ReplaceAll(s, pat, rep) == s
  {
  }

  // ---------------------------------------------------------------------
  // strip / trim

  /** The ASCII whitespace removed by JavaScript's
      `String.prototype.trim()`: tab, line feed, vertical tab, form feed,
      carriage return (U+0009 to U+000D) and space. */
  predicate IsJsSpace(c: char)
  {
    ('\t' <= c <= '\r') || c == ' '
  }

  /** The ASCII whitespace removed by Python's `str.strip()`: the
      characters above and the separators U+001C to U+001F, which Python's
      `str.isspace` also counts. */
  predicate IsSpace(c: char)
  {
    ('\t' <= c <= '\r') || ('\U{1C}' <= c <= ' ')
  }

  /** Which characters a strip removes: Python's whitespace, JavaScript's
      whitespace, or one given character. */
  datatype Drop = Whitespace | JsWhitespace | Only(c: char)

  predicate Drops(d: Drop, x: char)
  {
    match d
    case Whitespace => IsSpace(x)
    case JsWhitespace => IsJsSpace(x)
    case Only(c) => x == c
  }

  /** Removes the characters `drop` names from both ends, one at a time:
      the result neither starts nor ends with such a character and adds
      none. */
  function StripBy(s: string, drop: Drop): (r: string)
    ensures |r| > 0 ==> !Drops(drop, r[0]) && !Drops(drop, r[|r| - 1])
    ensures forall c :: c in r ==> c in s
    decreases |s|
  {
    if |s| > 0 && Drops(drop, s[0]) then StripBy(s[1..], drop)
    else if |s| > 0 && Drops(drop, s[|s| - 1]) then StripBy(s[..|s| - 1], drop)
    else s
  }

  /** Python `s.strip()`. */
  function Strip(s: string): string
  {
    StripBy(s, Whitespace)
  }

  /** JavaScript `s.trim()`. */
  function Trim(s: string): string
  {
    StripBy(s, JsWhitespace)
  }

  /** The two differ on the separators U+001C to U+001F: Python strips
      them, JavaScript keeps them. */
  lemma StripTrimDiffer(t: string)
    requires |t| > 0 && !IsSpace(t[0]) && !IsSpace(t[|t| - 1])
    ensures Strip("\U{1F}" + t) == t
    ensures Trim("\U{1F}" + t) == "\U{1F}" + t
  {
    var s := "\U{1F}" + t;
    assert s[1..] == t;
    assert s[|s| - 1] == t[|t| - 1];
    StripPadding("", t, "", Whitespace);
    assert "" + t + "" == t;
  }

  /** Python `s.strip(c)` for a one-character argument. */
  function StripChar(s: string, c: char): string
  {
    StripBy(s, Only(c))
  }

  // ---------------------------------------------------------------------
  // Slicing

  /** Python's `s[:k]`, including negative `k` (counted from the end). */
  function PyTake<T>(s: seq<T>, k: int): (r: seq<T>)
    ensures r <= s
    ensures 0 <= k ==> |r| == if k < |s| then k else |s|
    ensures k < 0 ==> |r| == if |s| + k < 0 then 0 else |s| + k
  {
    if k >= 0 then (if k < |s| then s[..k] else s)
    else if |s| + k < 0 then [] else s[..|s| + k]
  }

  // ---------------------------------------------------------------------
  // Decimal numbers

  predicate IsDigit(c: char)
  {
    '0' <= c <= '9'
  }

  predicate AllDigits(s: string)
  {
    forall i :: 0 <= i < |s| ==> IsDigit(s[i])
  }

  function DigitChar(d: nat): (c: char)
    requires d < 10
    ensures IsDigit(c)
  {
    "0123456789"[d]
  }

  function DigitValue(c: char): (d: nat)
    requires IsDigit(c)
    ensures d < 10
  {
    (c as int - '0' as int) as nat
  }

  lemma DigitCharValue(d: nat)
    requires d < 10
    ensures DigitValue(DigitChar(d)) == d
  {
  }

  /** Decimal rendering of a natural number, as Python `str(n)` and a
      JavaScript template literal print it. */
  function NatToString(n: nat): (s: string)
    ensures |s| > 0 && AllDigits(s)
  {
    if n < 10 then [DigitChar(n)] else NatToString(n / 10) + [DigitChar(n % 10)]
  }

  /** The value of a string of decimal digits. */
  function DigitsToNat(s: string): nat
    requires AllDigits(s)
  {
    if |s| == 0 then 0 else DigitsToNat(s[..|s| - 1]) * 10 + DigitValue(s[|s| - 1])
  }

  /** Rendering a number in decimal and reading it back gives the number. */
  lemma {:induction false} NatToStringRoundTrip(n: nat)
    ensures DigitsToNat(NatToString(n)) == n
  {
    var s := NatToString(n);
    if n < 10 {
      DigitCharValue(n);
    } else {
      NatToStringRoundTrip(n / 10);
      DigitCharValue(n % 10);
      assert s[..|s| - 1] == NatToString(n / 10);
    }
  }

  /** JavaScript's `Number(s)` restricted to what a version number can
      hold: surrounding whitespace is ignored, the empty string is 0, a run
      of decimal digits is its value and anything else is NaN. */
  datatype JsNumber = Finite(n: nat) | NaN

  function ToNumber(s: string): JsNumber
  {
    var t := Trim(s);
    if t == "" then Finite(0)
    else if AllDigits(t) then Finite(DigitsToNat(t))
    else NaN
  }

  /** `x + 1` on a JavaScript number (NaN stays NaN). */
  function Succ(x: JsNumber): JsNumber
  {
    match x
    case Finite(n) => Finite(n + 1)
    case NaN => NaN
  }

  /** `${x}` for a JavaScript number. */
  function NumberToString(x: JsNumber): string
  {
    match x
    case Finite(n) => NatToString(n)
    case NaN => "NaN"
  }

  /** Reading back a rendered natural number gives the number. */
  lemma ToNumberOfNatToString(n: nat)
    ensures ToNumber(NatToString(n)) == Finite(n)
  {
    var s := NatToString(n);
    assert forall c :: c in s ==> !IsJsSpace(c);
    NoSpaceTrim(s);
    NatToStringRoundTrip(n);
  }

  /** The ends of `a + t + b` are those of `t` or come from the padding. */
  lemma EndsWithin(a: string, t: string, b: string)
    requires |t| > 0
    ensures var s := a + t + b;
            (s[0] in a || s[0] == t[0]) && (s[|s| - 1] in b || s[|s| - 1] == t[|t| - 1])
  {
    var s := a + t + b;
    if |a| > 0 { assert s[0] == a[0]; } else { assert s[0] == t[0]; }
    if |b| > 0 { assert s[|s| - 1] == b[|b| - 1]; } else { assert s[|s| - 1] == t[|t| - 1]; }
  }

  /** A text whose ends are not dropped is left as it is. */
  lemma StripKeeps(s: string, drop: Drop)
    requires |s| > 0 && !Drops(drop, s[0]) && !Drops(drop, s[|s| - 1])
    ensures StripBy(s, drop) == s
  {
  }

  /** Stripping removes exactly the padding of dropped characters around a
      text that neither starts nor ends with one. */
  lemma {:induction false} StripPadding(a: string, t: string, b: string, drop: Drop)
    requires forall c :: c in a ==> Drops(drop, c)
    requires forall c :: c in b ==> Drops(drop, c)
    requires |t| > 0 && !Drops(drop, t[0]) && !Drops(drop, t[|t| - 1])
    ensures StripBy(a + t + b, drop) == t
    decreases |a|
  {
    var s := a + t + b;
    if |a| == 0 {
      assert s == t + b;
      StripTrailing(t, b, drop);
    } else {
      assert s[0] == a[0] && a[0] in a;
      assert s[1..] == a[1..] + t + b;
      assert forall c :: c in a[1..] ==> c in a;
      StripPadding(a[1..], t, b, drop);
    }
  }

  /** Stripping removes exactly the dropped characters after a text that
      neither starts nor ends with one. */
  lemma {:induction false} StripTrailing(t: string, b: string, drop: Drop)
    requires forall c :: c in b ==> Drops(drop, c)
    requires |t| > 0 && !Drops(drop, t[0]) && !Drops(drop, t[|t| - 1])
    ensures StripBy(t + b, drop) == t
    decreases |b|
  {
    var s := t + b;
    assert s[0] == t[0];
    if |b| == 0 {
      assert s == t;
    } else {
      var b' := b[..|b| - 1];
      assert s[|s| - 1] == b[|b| - 1] && b[|b| - 1] in b;
      assert s[..|s| - 1] == t + b';
      assert forall c :: c in b' ==> c in b;
      StripTrailing(t, b', drop);
    }
  }

  /** Splitting pieces joined by a character none of them holds gives the
      pieces back. */
  lemma {:induction false} SplitJoinChar(parts: seq<string>, c: char)
    requires |parts| > 0
    requires forall k :: 0 <= k < |parts| ==> c !in parts[k]
    ensures Split(Join(parts, [c]), [c]) == parts
  {
    if |parts| == 1 {
      SplitCharAbsent(parts[0], c);
    } else {
      var rest := parts[1..];
      assert forall k :: 0 <= k < |rest| ==> rest[k] == parts[k + 1];
      SplitJoinChar(rest, c);
      SplitCharCons(parts[0], c, Join(rest, [c]));
    }
  }

  /** A character in neither the pieces nor the separator is not in their
      join. */
  lemma {:induction false} JoinAbsent(parts: seq<string>, sep: string, x: char)
    requires x !in sep && forall k :: 0 <= k < |parts| ==> x !in parts[k]
    ensures x !in Join(parts, sep)
  {
    if |parts| > 1 {
      var rest := parts[1..];
      assert forall k :: 0 <= k < |rest| ==> rest[k] == parts[k + 1];
      JoinAbsent(rest, sep, x);
    }
  }

  /** A pattern whose first character is absent does not occur. */
  lemma AbsentHead(s: string, pat: string)
    requires |pat| > 0 && pat[0] !in s
    ensures !Contains(s, pat)
  {
    forall j: nat ensures !OccursAt(s, pat, j) {
      if j + |pat| <= |s| {
        assert s[j..j + |pat|][0] == s[j];
      }
    }
  }

  /** Stripping a string without whitespace leaves it unchanged. */
  lemma NoSpaceStrip(s: string)
    requires forall c :: c in s ==> !IsSpace(c)
    ensures Strip(s) == s
  {
    if |s| > 0 {
      assert s[0] in s && s[|s| - 1] in s;
    }
  }

  /** Trimming a string without JavaScript whitespace leaves it
      unchanged. */
  lemma NoSpaceTrim(s: string)
    requires forall c :: c in s ==> !IsJsSpace(c)
    ensures Trim(s) == s
  {
    if |s| > 0 {
      assert s[0] in s && s[|s| - 1] in s;
    }
  }

  /** A pattern that does not hold `c` and occurs in neither `a` nor `b`
      does not occur in `a`, `c`, `b` put together. */
  lemma AbsentAcross(a: string, c: char, b: string, pat: string)
    requires |pat| > 0 && c !in pat
    requires !Contains(a, pat) && !Contains(b, pat)
    ensures !Contains(a + [c] + b, pat)
  {
    var s := a + [c] + b;
    forall j: nat ensures !OccursAt(s, pat, j) {
      if j + |pat| <= |s| {
        var w := s[j..j + |pat|];
        if j + |pat| <= |a| {
          assert w == a[j..j + |pat|];
          assert !OccursAt(a, pat, j);
        } else if j > |a| {
          assert w == b[j - |a| - 1..j - |a| - 1 + |pat|];
          assert !OccursAt(b, pat, j - |a| - 1);
        } else {
          assert w[|a| - j] == c && w[|a| - j] in w;
        }
      }
    }
  }
}
