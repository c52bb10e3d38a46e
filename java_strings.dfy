/** The two pieces of java.lang that the client's string handling relies on:
    String.split with a one-character, non-regex separator (limit 0), and
    Integer.toString. */
module JavaStrings {

  /** The run of non-separators at the end of `s`: its last piece. */
  function LastPiece(s: string, sep: char): string
  {
    if s == [] then []
    else if s[|s| - 1] == sep then []
    else LastPiece(s[..|s| - 1], sep) + [s[|s| - 1]]
  }

  /** The pieces of `s` before its last separator, empty ones included. */
  function FrontPieces(s: string, sep: char): seq<string>
  {
    if s == [] then []
    else if s[|s| - 1] == sep then FrontPieces(s[..|s| - 1], sep) + [LastPiece(s[..|s| - 1], sep)]
    else FrontPieces(s[..|s| - 1], sep)
  }

  /** Every piece of `s` between occurrences of `sep`, keeping empty pieces:
      there is always one more piece than there are separators. */
  function Pieces(s: string, sep: char): seq<string>
  {
    FrontPieces(s, sep) + [LastPiece(s, sep)]
  }

  /** Removes the empty strings at the end of `ps` (and only those). */
  function DropTrailingEmpty(ps: seq<string>): seq<string>
  {
    if ps == [] then []
    else if ps[|ps| - 1] == "" then DropTrailingEmpty(ps[..|ps| - 1])
    else ps
  }

  /** String.split(String.valueOf(sep)) with the implicit limit 0: when the
      separator does not occur the result is the whole string; otherwise the
      pieces, with trailing empty pieces removed (a leading empty piece stays). */
  function Split(s: string, sep: char): (r: seq<string>)
    ensures sep !in s ==> r == [s]
    ensures forall p :: p in r ==> sep !in p
    ensures sep in s ==> r == [] || r[|r| - 1] != []
    ensures exists t :: AllAre(t, sep) && s == Join(r, sep) + t
  {
    if sep !in s then
      assert s == Join([s], sep) + [];
      [s]
    else
      PiecesHaveNoSeparator(s, sep);
      DropTrailingEmptyIsPrefix(Pieces(s, sep));
      JoinPieces(s, sep);
      JoinDropTrailingEmpty(Pieces(s, sep), sep);
      DropTrailingEmpty(Pieces(s, sep))
  }

  /** The pieces put back together with `sep` between neighbours
      (String.join). */
  function Join(ps: seq<string>, sep: char): string
  {
    if ps == [] then []
    else if |ps| == 1 then ps[0]
    else Join(ps[..|ps| - 1], sep) + [sep] + ps[|ps| - 1]
  }

  /** Growing the last piece grows the joined string at its end. */
  lemma JoinExtendLast(ps: seq<string>, x: string, c: char, sep: char)
    ensures Join(ps + [x + [c]], sep) == Join(ps + [x], sep) + [c]
  {
    if ps != [] {
      assert (ps + [x + [c]])[..|ps|] == ps == (ps + [x])[..|ps|];
    }
  }

  /** The pieces, empty ones included, join back into the string. */
  lemma {:induction false} JoinPieces(s: string, sep: char)
    ensures Join(Pieces(s, sep), sep) == s
  {
    if s != [] {
      var front := s[..|s| - 1];
      JoinPieces(front, sep);
      if s[|s| - 1] == sep {
        var ps := Pieces(s, sep);
        assert ps == Pieces(front, sep) + [""];
        assert ps[..|ps| - 1] == Pieces(front, sep);
        assert s == front + [sep] + "";
      } else {
        JoinExtendLast(FrontPieces(front, sep), LastPiece(front, sep), s[|s| - 1], sep);
        assert s == front + [s[|s| - 1]];
      }
    }
  }

  /** Dropping the trailing empty pieces removes only separators from the
      end of the joined string. */
  lemma {:induction false} JoinDropTrailingEmpty(ps: seq<string>, sep: char)
    ensures exists t :: AllAre(t, sep) && Join(ps, sep) == Join(DropTrailingEmpty(ps), sep) + t
  {
    if ps == [] || ps[|ps| - 1] != "" {
      assert Join(ps, sep) == Join(DropTrailingEmpty(ps), sep) + [];
    } else {
      var front := ps[..|ps| - 1];
      JoinDropTrailingEmpty(front, sep);
      var t' :| AllAre(t', sep) && Join(front, sep) == Join(DropTrailingEmpty(front), sep) + t';
      if front == [] {
        assert Join(ps, sep) == Join(DropTrailingEmpty(ps), sep) + [];
      } else {
        assert Join(ps, sep) == Join(DropTrailingEmpty(ps), sep) + (t' + [sep]);
        assert AllAre(t' + [sep], sep);
      }
    }
  }

  lemma {:induction false} LastPieceHasNoSeparator(s: string, sep: char)
    ensures sep !in LastPiece(s, sep)
  {
    if s != [] && s[|s| - 1] != sep {
      LastPieceHasNoSeparator(s[..|s| - 1], sep);
    }
  }

  lemma {:induction false} PiecesHaveNoSeparator(s: string, sep: char)
    ensures forall p :: p in Pieces(s, sep) ==> sep !in p
  {
    LastPieceHasNoSeparator(s, sep);
    if s != [] {
      PiecesHaveNoSeparator(s[..|s| - 1], sep);
      LastPieceHasNoSeparator(s[..|s| - 1], sep);
    }
  }

  /** Dropping trailing empty strings keeps a prefix that ends in a non-empty one. */
  lemma {:induction false} DropTrailingEmptyIsPrefix(ps: seq<string>)
    ensures var r := DropTrailingEmpty(ps);
      |r| <= |ps| && r == ps[..|r|] && (r == [] || r[|r| - 1] != [])
  {
    if ps != [] && ps[|ps| - 1] == "" {
      DropTrailingEmptyIsPrefix(ps[..|ps| - 1]);
    }
  }

  /** A sequence of `n` empty strings. */
  function Empties(n: nat): (r: seq<string>)
    ensures |r| == n
  {
    if n == 0 then [] else Empties(n - 1) + [""]
  }

  /** True when every character of `s` is `c`. */
  predicate AllAre(s: string, c: char)
  {
    forall k :: 0 <= k < |s| ==> s[k] == c
  }

  predicate IsDigit(c: char)
  {
    '0' <= c <= '9'
  }

  predicate IsDigits(s: string)
  {
    forall k :: 0 <= k < |s| ==> IsDigit(s[k])
  }

  function DigitChar(d: nat): (c: char)
    requires d < 10
    ensures IsDigit(c)
  {
    ('0' as int + d) as char
  }

  function DigitValue(c: char): nat
  {
    if IsDigit(c) then c as int - '0' as int else 0
  }

  /** Decimal digits of `n`, most significant first, with no leading zero. */
  function NatToString(n: nat): (s: string)
    ensures s != [] && IsDigits(s)
    ensures n > 0 ==> s[0] != '0'
    decreases n
  {
    if n < 10 then [DigitChar(n)] else NatToString(n / 10) + [DigitChar(n % 10)]
  }

  /** Integer.toString: a minus sign before the digits of a negative value. */
  function IntToString(i: int): (r: string)
    ensures i >= 0 ==> IsDigits(r) && ParseDigits(r) == i
    ensures i < 0 ==> r != [] && r[0] == '-' && IsDigits(r[1..]) && ParseDigits(r[1..]) == -i
    ensures '-' in r <==> i < 0
    ensures r != [] && (i >= 0 ==> (r[0] == '0' <==> i == 0))
    ensures i < 0 ==> |r| >= 2 && r[1] != '0'
  {
    if i < 0 then
      ParseNatToString(-i);
      assert ("-" + NatToString(-i))[1..] == NatToString(-i);
      "-" + NatToString(-i)
    else
      ParseNatToString(i);
      NatToString(i)
  }

  /** The value of a string of decimal digits (leading zeros allowed). */
  function ParseDigits(s: string): nat
  {
    if s == [] then 0 else ParseDigits(s[..|s| - 1]) * 10 + DigitValue(s[|s| - 1])
  }

  /** `n` copies of the character '0'. */
  function Zeros(n: nat): (z: string)
    ensures |z| == n && AllAre(z, '0')
  {
    if n == 0 then [] else Zeros(n - 1) + ['0']
  }

  lemma {:induction false} ParseNatToString(n: nat)
    ensures ParseDigits(NatToString(n)) == n
    decreases n
  {
    if n >= 10 {
      var s := NatToString(n);
      assert s[..|s| - 1] == NatToString(n / 10);
      ParseNatToString(n / 10);
    }
  }

  lemma {:induction false} ParseLeadingZeros(z: string, d: string)
    requires AllAre(z, '0')
    ensures ParseDigits(z + d) == ParseDigits(d)
    decreases |d|
  {
    if d == [] {
      assert z + d == z;
      ZerosParseToZero(z);
    } else {
      assert (z + d)[..|z + d| - 1] == z + d[..|d| - 1];
      ParseLeadingZeros(z, d[..|d| - 1]);
    }
  }

  lemma {:induction false} ZerosParseToZero(z: string)
    requires AllAre(z, '0')
    ensures ParseDigits(z) == 0
    decreases |z|
  {
    if z != [] {
      ZerosParseToZero(z[..|z| - 1]);
    }
  }
}
