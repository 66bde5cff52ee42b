/** String helpers shared by the transport and the command processor: the
    substring test used for `quit` detection and method routing, the
    character filter used to sanitise registry keys, the `std::getline`
    splitter, the C-string view of a NUL-padded buffer and decimal rendering. */
module Text {

  /** `p` occurs in `s` starting at index `i`. */
  predicate OccursAt(s: string, p: string, i: int)
  {
    0 <= i && i + |p| <= |s| && s[i..i + |p|] == p
  }

  /** `s.find(p) != npos`: some window of `s` equals `p`. */
  function Contains(s: string, p: string): bool
    decreases |s|
  {
    if |p| > |s| then false
    else if s[..|p|] == p then true
    else Contains(s[1..], p)
  }

  lemma {:induction false} ContainsIff(s: string, p: string)
    ensures Contains(s, p) <==> exists i :: OccursAt(s, p, i)
    decreases |s|
  {
    if |p| > |s| {
    } else if s[..|p|] == p {
      assert OccursAt(s, p, 0);
    } else {
      ContainsIff(s[1..], p);
      if Contains(s[1..], p) {
        var i :| OccursAt(s[1..], p, i);
        assert s[1..][i..i + |p|] == s[i + 1..i + 1 + |p|];
        assert OccursAt(s, p, i + 1);
      } else {
        forall i | OccursAt(s, p, i)
          ensures false
        {
          assert s[0..|p|] == s[..|p|];
          OccursShift(s, p, i);
        }
      }
    }
  }

  /** An occurrence past the first index is an occurrence in the tail. */
  lemma OccursShift(s: string, p: string, i: int)
    requires OccursAt(s, p, i) && i != 0
    ensures OccursAt(s[1..], p, i - 1)
  {
    assert s[1..][i - 1..i - 1 + |p|] == s[i..i + |p|];
  }

  /** A string containing `p` still contains it when extended on either side. */
  lemma ContainsExtend(a: string, s: string, b: string, p: string)
    requires Contains(s, p)
    ensures Contains(a + s + b, p)
  {
    ContainsIff(s, p);
    var i :| OccursAt(s, p, i);
    assert (a + s + b)[|a| + i..|a| + i + |p|] == s[i..i + |p|];
    assert OccursAt(a + s + b, p, |a| + i);
    ContainsIff(a + s + b, p);
  }

  /** Number of occurrences of `c` in `s`. */
  function CountChar(s: string, c: char): nat
  {
    if |s| == 0 then 0 else (if s[0] == c then 1 else 0) + CountChar(s[1..], c)
  }

  lemma CountCharAppend(a: string, b: string, c: char)
    ensures CountChar(a + b, c) == CountChar(a, c) + CountChar(b, c)
  {
    if |a| == 0 {
      assert a + b == b;
    } else {
      assert (a + b)[1..] == a[1..] + b;
      CountCharAppend(a[1..], b, c);
    }
  }

  lemma CountCharAbsent(s: string, c: char)
    requires c !in s
    ensures CountChar(s, c) == 0
  {
    if |s| > 0 {
      CountCharAbsent(s[1..], c);
    }
  }

  /** `s` with every character of `bad` erased, order of the rest kept. */
  function Remove(s: string, bad: set<char>): (r: string)
    ensures |r| <= |s|
    ensures forall i :: 0 <= i < |r| ==> r[i] !in bad
    ensures forall i :: 0 <= i < |r| ==> r[i] in s
  {
    if |s| == 0 then ""
    else if s[0] in bad then Remove(s[1..], bad)
    else [s[0]] + Remove(s[1..], bad)
  }

  lemma RemoveAppend(a: string, b: string, bad: set<char>)
    ensures Remove(a + b, bad) == Remove(a, bad) + Remove(b, bad)
  {
    if |a| == 0 {
      assert a + b == b;
    } else {
      assert (a + b)[1..] == a[1..] + b;
      RemoveAppend(a[1..], b, bad);
    }
  }

  /** Filtering keeps exactly the characters outside `bad`: a string free of
      them is returned unchanged, and filtering twice is filtering once. */
  lemma {:induction false} RemoveIdentity(s: string, bad: set<char>)
    ensures (forall i :: 0 <= i < |s| ==> s[i] !in bad) <==> Remove(s, bad) == s
  {
    if |s| > 0 {
      RemoveIdentity(s[1..], bad);
      if s[0] in bad {
        assert |Remove(s, bad)| <= |s[1..]| < |s|;
      } else if forall i :: 0 <= i < |s| ==> s[i] !in bad {
        assert forall i :: 0 <= i < |s[1..]| ==> s[1..][i] !in bad;
      } else {
        var i :| 0 <= i < |s| && s[i] in bad;
        assert i > 0 && s[1..][i - 1] in bad;
      }
    }
  }

  lemma RemoveIdempotent(s: string, bad: set<char>)
    ensures Remove(Remove(s, bad), bad) == Remove(s, bad)
  {
    RemoveIdentity(Remove(s, bad), bad);
  }

  /** The number of characters erased is the number of occurrences of the
      erased characters. */
  lemma {:induction false} RemoveCharCount(s: string, c: char)
    ensures |Remove(s, {c})| + CountChar(s, c) == |s|
  {
    if |s| > 0 {
      RemoveCharCount(s[1..], c);
    }
  }

  /** `std::string::erase(std::remove(b, e, c), e)`: one pass per character. */
  function EraseChar(s: string, c: char): string
  {
    Remove(s, {c})
  }

  /** Three successive erase passes equal one filter over the union. */
  lemma {:induction false} EraseThreeIsRemove(s: string, a: char, b: char, c: char)
    ensures EraseChar(EraseChar(EraseChar(s, a), b), c) == Remove(s, {a, b, c})
  {
    if |s| > 0 {
      EraseThreeIsRemove(s[1..], a, b, c);
      var t := s[1..];
      if s[0] == a {
      } else if s[0] == b {
        assert EraseChar(s, a) == [s[0]] + EraseChar(t, a);
      } else if s[0] == c {
        assert EraseChar(s, a) == [s[0]] + EraseChar(t, a);
        assert EraseChar(EraseChar(s, a), b) == [s[0]] + EraseChar(EraseChar(t, a), b);
      } else {
        assert EraseChar(s, a) == [s[0]] + EraseChar(t, a);
        assert EraseChar(EraseChar(s, a), b) == [s[0]] + EraseChar(EraseChar(t, a), b);
        assert ([s[0]] + EraseChar(EraseChar(t, a), b))[1..] == EraseChar(EraseChar(t, a), b);
      }
    }
  }

  /** The C-string view of a buffer: everything before the first NUL. */
  function UpToNul(s: string): (r: string)
    ensures |r| <= |s| && r == s[..|r|]
    ensures '\0' !in r
    ensures |r| < |s| ==> s[|r|] == '\0'
  {
    if |s| == 0 || s[0] == '\0' then "" else [s[0]] + UpToNul(s[1..])
  }

  lemma UpToNulAbsent(s: string)
    requires '\0' !in s
    ensures UpToNul(s) == s
  {
  }

  /** Index of the first `d` in `s`, or `|s|` when there is none. */
  function IndexOf(s: string, d: char): (k: nat)
    ensures k <= |s|
    ensures k < |s| ==> s[k] == d
    ensures d !in s[..k]
  {
    if |s| == 0 then 0 else if s[0] == d then 0 else 1 + IndexOf(s[1..], d)
  }

  /** A `d` at `j` with none before it is the first. */
  lemma IndexOfAt(s: string, d: char, j: int)
    requires 0 <= j < |s| && s[j] == d && d !in s[..j]
    ensures IndexOf(s, d) == j
  {
  }

  /** Cut `s` at every `d`: one more piece than there are delimiters. */
  function SplitOn(s: string, d: char): (ps: seq<string>)
    ensures |ps| >= 1
    decreases |s|
  {
    var k := IndexOf(s, d);
    if k == |s| then [s] else [s[..k]] + SplitOn(s[k + 1..], d)
  }

  /** Glue pieces back with `d` between consecutive ones. */
  function Join(ps: seq<string>, d: char): string
  {
    if |ps| == 0 then "" else if |ps| == 1 then ps[0] else ps[0] + [d] + Join(ps[1..], d)
  }

  lemma {:induction false} SplitOnJoin(s: string, d: char)
    ensures Join(SplitOn(s, d), d) == s
    ensures |SplitOn(s, d)| == CountChar(s, d) + 1
    ensures forall i :: 0 <= i < |SplitOn(s, d)| ==> d !in SplitOn(s, d)[i]
    decreases |s|
  {
    var k := IndexOf(s, d);
    if k == |s| {
      assert s[..k] == s;
      CountCharAbsent(s, d);
    } else {
      SplitOnJoin(s[k + 1..], d);
      assert s == s[..k] + [d] + s[k + 1..];
      CountCharAppend(s[..k] + [d], s[k + 1..], d);
      CountCharAppend(s[..k], [d], d);
      CountCharAbsent(s[..k], d);
      var rest := SplitOn(s[k + 1..], d);
      assert SplitOn(s, d) == [s[..k]] + rest;
      assert ([s[..k]] + rest)[1..] == rest;
    }
  }

  /** The pieces `while (std::getline(ss, item, d))` produces: the cut
      pieces, except that a trailing empty piece is not produced (so the
      empty string gives no pieces at all). */
  function GetlineSplit(s: string, d: char): seq<string>
  {
    var ps := SplitOn(s, d);
    if ps[|ps| - 1] == "" then ps[..|ps| - 1] else ps
  }

  /** Lossless view of `GetlineSplit`: the pieces hold no delimiter, and
      gluing them back gives the input, up to one trailing delimiter that
      is present exactly when the input ends with it (or is empty). */
  lemma {:induction false} GetlineSplitSpec(s: string, d: char)
    ensures forall i :: 0 <= i < |GetlineSplit(s, d)| ==> d !in GetlineSplit(s, d)[i]
    ensures EndsWith(s, d) ==> Join(GetlineSplit(s, d) + [""], d) == s
    ensures !EndsWith(s, d) ==> Join(GetlineSplit(s, d), d) == s
    ensures |GetlineSplit(s, d)| == CountChar(s, d) + (if EndsWith(s, d) || |s| == 0 then 0 else 1)
  {
    SplitOnJoin(s, d);
    LastPieceEmpty(SplitOn(s, d), s, d);
    GetlinePiecesClean(s, d);
    GetlineJoin(s, d);
  }

  lemma {:induction false} GetlinePiecesClean(s: string, d: char)
    requires forall i :: 0 <= i < |SplitOn(s, d)| ==> d !in SplitOn(s, d)[i]
    ensures forall i :: 0 <= i < |GetlineSplit(s, d)| ==> d !in GetlineSplit(s, d)[i]
  {
    var ps := SplitOn(s, d);
    var g := GetlineSplit(s, d);
    assert forall i :: 0 <= i < |g| ==> g[i] == ps[i];
  }

  lemma {:induction false} GetlineJoin(s: string, d: char)
    requires Join(SplitOn(s, d), d) == s
    requires |SplitOn(s, d)| == CountChar(s, d) + 1
    requires var ps := SplitOn(s, d); ps[|ps| - 1] == "" <==> (|s| == 0 || s[|s| - 1] == d)
    ensures EndsWith(s, d) ==> Join(GetlineSplit(s, d) + [""], d) == s
    ensures !EndsWith(s, d) ==> Join(GetlineSplit(s, d), d) == s
    ensures |GetlineSplit(s, d)| == CountChar(s, d) + (if EndsWith(s, d) || |s| == 0 then 0 else 1)
  {
    var ps := SplitOn(s, d);
    var g := GetlineSplit(s, d);
    if ps[|ps| - 1] == "" {
      assert g == ps[..|ps| - 1];
      if |s| > 0 {
        assert g + [""] == ps;
      } else {
        assert |g| == 0;
      }
    } else {
      assert g == ps;
    }
  }

  /** Cutting the glue of delimiter-free pieces gives the pieces back. */
  lemma {:induction false} SplitOnOfJoin(ps: seq<string>, d: char)
    requires |ps| >= 1
    requires forall i :: 0 <= i < |ps| ==> d !in ps[i]
    ensures SplitOn(Join(ps, d), d) == ps
    decreases |ps|
  {
    var s := Join(ps, d);
    if |ps| == 1 {
      assert s == ps[0];
      NoDelimiterNoCut(s, d);
    } else {
      var rest := Join(ps[1..], d);
      assert s == ps[0] + [d] + rest;
      assert s[..|ps[0]|] == ps[0];
      IndexOfAt(s, d, |ps[0]|);
      assert s[|ps[0]| + 1..] == rest;
      CutFirst(s, d);
      SplitOnOfJoin(ps[1..], d);
      assert ps == [ps[0]] + ps[1..];
    }
  }

  lemma NoDelimiterNoCut(s: string, d: char)
    requires d !in s
    ensures SplitOn(s, d) == [s]
  {
    assert forall i :: 0 <= i < |s| ==> s[i] != d;
  }

  lemma CutFirst(s: string, d: char)
    requires IndexOf(s, d) < |s|
    ensures var k := IndexOf(s, d); SplitOn(s, d) == [s[..k]] + SplitOn(s[k + 1..], d)
  {
  }

  /** Getline's pieces of delimiter-free pieces glued with `d` are those
      pieces, when the last one is not empty. */
  lemma GetlineSplitOfJoin(ps: seq<string>, d: char)
    requires |ps| >= 1 && ps[|ps| - 1] != ""
    requires forall i :: 0 <= i < |ps| ==> d !in ps[i]
    ensures GetlineSplit(Join(ps, d), d) == ps
  {
    SplitOnOfJoin(ps, d);
  }

  /** `s` is non-empty and its last character is `d`. */
  predicate EndsWith(s: string, d: char)
  {
    |s| > 0 && s[|s| - 1] == d
  }

  /** Of delimiter-free pieces glued with `d`, the last is empty exactly
      when the glued text is empty or ends with `d`. */
  lemma LastPieceEmpty(ps: seq<string>, s: string, d: char)
    requires |ps| >= 1 && Join(ps, d) == s
    requires forall i :: 0 <= i < |ps| ==> d !in ps[i]
    ensures ps[|ps| - 1] == "" <==> (|s| == 0 || s[|s| - 1] == d)
  {
    var t := ps[|ps| - 1];
    JoinEnd(ps, d);
    if t != "" {
      assert s[|s| - 1] == t[|t| - 1];
      assert t[|t| - 1] in t;
    }
  }

  /** The glued text ends with the last piece, and a delimiter comes just
      before it when there is more than one piece. */
  lemma {:induction false} JoinEnd(ps: seq<string>, d: char)
    requires |ps| >= 1
    ensures var t := ps[|ps| - 1]; var j := Join(ps, d);
      |t| <= |j| && j[|j| - |t|..] == t && (|ps| > 1 ==> |t| < |j| && j[|j| - |t| - 1] == d)
    decreases |ps|
  {
    if |ps| > 1 {
      var t := ps[|ps| - 1];
      var tl := Join(ps[1..], d);
      JoinEnd(ps[1..], d);
      assert ps[1..][|ps| - 2] == t;
      var j := Join(ps, d);
      assert j == ps[0] + [d] + tl;
      assert j[|j| - |t|..] == tl[|tl| - |t|..];
      if |ps| == 2 {
        assert tl == t;
      }
    }
  }

  /** Decimal rendering of an integer, as `std::stringstream << int` writes it. */
  function Decimal(n: int): (r: string)
    ensures |r| > 0
    decreases if n < 0 then 1 - n else n
  {
    if n < 0 then "-" + Decimal(-n)
    else if n < 10 then [Digit(n)]
    else Decimal(n / 10) + [Digit(n % 10)]
  }

  function Digit(d: int): char
    requires 0 <= d < 10
  {
    "0123456789"[d]
  }

  predicate IsDigits(s: string)
  {
    forall i :: 0 <= i < |s| ==> '0' <= s[i] <= '9'
  }

  /** The value of a string of decimal digits, most significant first. */
  function DigitsValue(s: string): nat
    requires IsDigits(s)
  {
    if |s| == 0 then 0 else 10 * DigitsValue(s[..|s| - 1]) + (s[|s| - 1] as int - '0' as int)
  }

  /** Reading decimal text back (`std::stoi` on what `<<` wrote): an
      optional minus sign, then digits. */
  function ReadDecimal(s: string): (n: int)
    requires IsDigits(s) || (|s| > 0 && s[0] == '-' && IsDigits(s[1..]))
  {
    if |s| > 0 && s[0] == '-' then -(DigitsValue(s[1..]) as int) else DigitsValue(s)
  }

  /** The rendering of a non-negative number is all digits, starts with
      `0` only for zero itself, and reads back as that number. */
  lemma {:induction false} DecimalNatural(n: nat)
    ensures IsDigits(Decimal(n)) && DigitsValue(Decimal(n)) == n
    ensures Decimal(n)[0] == '0' <==> n == 0
    decreases n
  {
    if n < 10 {
      DigitValue(n);
    } else {
      DecimalNatural(n / 10);
      DigitValue(n % 10);
      var s := Decimal(n / 10) + [Digit(n % 10)];
      assert s[..|s| - 1] == Decimal(n / 10);
      assert s[0] == Decimal(n / 10)[0];
    }
  }

  lemma DigitValue(d: int)
    requires 0 <= d < 10
    ensures '0' <= Digit(d) <= '9' && Digit(d) as int - '0' as int == d
  {
  }

  /** Decimal rendering loses nothing: a minus sign only for negative
      numbers, digits otherwise, no leading zero except in `0` itself, and
      the text reads back as the number. */
  lemma DecimalRoundTrip(n: int)
    ensures var s := Decimal(n);
      (n < 0 <==> s[0] == '-') && (n >= 0 ==> IsDigits(s)) && (n < 0 ==> IsDigits(s[1..]))
    ensures n >= 0 ==> (Decimal(n)[0] == '0' <==> n == 0)
    ensures n < 0 ==> |Decimal(n)| > 1 && Decimal(n)[1] != '0'
    ensures ReadDecimal(Decimal(n)) == n
  {
    var s := Decimal(n);
    if n < 0 {
      var t := Decimal(-n);
      DecimalNatural(-n);
      assert s == "-" + t;
      assert s[1..] == t;
      assert ReadDecimal(s) == -(DigitsValue(t) as int);
    } else {
      DecimalNatural(n);
      assert '0' <= s[0] <= '9';
    }
  }
}
