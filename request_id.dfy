/** Deriving a NodePool request id from the path the store assigned to the
    request (NodePoolClient.idForPath). */
module RequestId {
  import opened Wrappers
  import opened JavaStrings

  const Dash: char := '-'

  /** What idForPath can throw: a NodePoolException for a path without any
      dash, or the index error of `parts.get(-1)` when the split is empty. */
  datatype IdError = InvalidPath(path: string) | IndexOutOfBounds(index: int)

  /** The last piece of `path.split("-")`. It throws NodePoolException
      exactly when the path has no dash; any other failure is the index error
      of an empty split; an id it returns is non-empty and dash-free. */
  function IdForPath(path: string): (r: Result<string, IdError>)
    ensures r.Err? && r.error.InvalidPath? <==> Dash !in path
    ensures r.Err? ==> r.error == InvalidPath(path) || r.error == IndexOutOfBounds(-1)
    ensures r.Ok? ==> r.value != [] && Dash !in r.value
  {
    if Dash !in path then Err(InvalidPath(path))
    else
      var parts := Split(path, Dash);
      if |parts| == 0 then Err(IndexOutOfBounds(|parts| - 1))
      else Ok(parts[|parts| - 1])
  }

  /** `path == prefix + id + trailing` cuts the path around the id that
      idForPath should find: the id is a non-empty run of non-dash characters
      that starts the path or follows a dash, and only dashes come after it;
      a dash occurs somewhere. */
  predicate IsIdCut(prefix: string, id: string, trailing: string)
  {
    && (prefix == [] || prefix[|prefix| - 1] == Dash)
    && id != [] && Dash !in id
    && AllAre(trailing, Dash)
    && (Dash in prefix || trailing != [])
  }

  // ---------------------------------------------------------------------
  // Facts about Pieces and DropTrailingEmpty used below.

  lemma PiecesSnoc(s: string, c: char, sep: char)
    ensures FrontPieces(s + [c], sep) ==
              if c == sep then FrontPieces(s, sep) + [LastPiece(s, sep)] else FrontPieces(s, sep)
    ensures LastPiece(s + [c], sep) == if c == sep then [] else LastPiece(s, sep) + [c]
  {
    assert (s + [c])[..|s|] == s;
  }

  lemma {:induction false} PiecesAppendNoSep(s: string, t: string, sep: char)
    requires sep !in t
    ensures FrontPieces(s + t, sep) == FrontPieces(s, sep)
    ensures LastPiece(s + t, sep) == LastPiece(s, sep) + t
    decreases |t|
  {
    if t == [] {
      assert s + t == s;
    } else {
      var t', c := t[..|t| - 1], t[|t| - 1];
      assert s + t == (s + t') + [c];
      assert LastPiece(s, sep) + t' + [c] == LastPiece(s, sep) + t;
      PiecesAppendNoSep(s, t', sep);
      PiecesSnoc(s + t', c, sep);
    }
  }

  lemma {:induction false} PiecesAppendSeps(s: string, d: string, sep: char)
    requires AllAre(d, sep)
    ensures Pieces(s + d, sep) == Pieces(s, sep) + Empties(|d|)
    decreases |d|
  {
    if d == [] {
      assert s + d == s;
    } else {
      var d' := d[..|d| - 1];
      assert s + d == (s + d') + [sep];
      PiecesAppendSeps(s, d', sep);
      PiecesSnoc(s + d', sep, sep);
    }
  }

  lemma {:induction false} DropEmpties(ps: seq<string>, n: nat)
    ensures DropTrailingEmpty(ps + Empties(n)) == DropTrailingEmpty(ps)
    decreases n
  {
    if n == 0 {
      assert ps + Empties(n) == ps;
    } else {
      var qs := ps + Empties(n);
      assert qs[..|qs| - 1] == ps + Empties(n - 1);
      DropEmpties(ps, n - 1);
    }
  }

  /** A non-empty last piece survives DropTrailingEmpty and stays last. */
  lemma KeptLastPiece(s: string, sep: char)
    requires LastPiece(s, sep) != []
    ensures DropTrailingEmpty(Pieces(s, sep)) == Pieces(s, sep)
  {
  }

  /** `s` ends with `last`, a run of non-separators that starts `s` or
      follows a separator. */
  predicate EndsWithToken(s: string, last: string, sep: char)
  {
    && |last| <= |s| && s[|s| - |last|..] == last && sep !in last
    && (|last| == |s| || s[|s| - |last| - 1] == sep)
  }

  /** The last piece of `s` is the run of non-separators at its end. */
  lemma {:induction false} LastPieceIsSuffix(s: string, sep: char)
    ensures EndsWithToken(s, LastPiece(s, sep), sep)
    decreases |s|
  {
    if s != [] {
      var front, c := s[..|s| - 1], s[|s| - 1];
      assert s == front + [c];
      PiecesSnoc(front, c, sep);
      if c != sep {
        LastPieceIsSuffix(front, sep);
        TokenExtends(front, LastPiece(front, sep), c, sep);
      }
    }
  }

  lemma TokenExtends(front: string, last: string, c: char, sep: char)
    requires EndsWithToken(front, last, sep) && c != sep
    ensures EndsWithToken(front + [c], last + [c], sep)
  {
    var s := front + [c];
    assert s[|s| - |last + [c]|..] == front[|front| - |last|..] + [c];
  }

  /** The cut conditions of IsIdCut except that a dash must occur. */
  predicate IsTokenCut(prefix: string, id: string, trailing: string)
  {
    && (prefix == [] || prefix[|prefix| - 1] == Dash)
    && id != [] && Dash !in id
    && AllAre(trailing, Dash)
  }

  /** Whatever token `id` DropTrailingEmpty leaves last, `s` is cut around it. */
  lemma {:induction false} LastTokenCut(s: string, id: string)
    requires var d := DropTrailingEmpty(Pieces(s, Dash)); d != [] && id == d[|d| - 1]
    ensures exists prefix, trailing {:trigger IsTokenCut(prefix, id, trailing)} :: s == prefix + id + trailing && IsTokenCut(prefix, id, trailing)
    decreases |s|
  {
    var front, c := s[..|s| - 1], s[|s| - 1];
    assert s == front + [c];
    if c == Dash {
      DropAfterSeparator(front, Dash);
      LastTokenCut(front, id);
      CutExtendsByDash(front, id);
    } else {
      PiecesSnoc(front, c, Dash);
      KeptLastPiece(s, Dash);
      LastPieceIsSuffix(s, Dash);
      CutAtLastPiece(s, id);
    }
  }

  lemma CutExtendsByDash(front: string, id: string)
    requires exists prefix, trailing {:trigger IsTokenCut(prefix, id, trailing)} :: front == prefix + id + trailing && IsTokenCut(prefix, id, trailing)
    ensures exists prefix, trailing {:trigger IsTokenCut(prefix, id, trailing)} :: front + [Dash] == prefix + id + trailing && IsTokenCut(prefix, id, trailing)
  {
    var prefix, trailing :| front == prefix + id + trailing && IsTokenCut(prefix, id, trailing);
    assert front + [Dash] == prefix + id + (trailing + [Dash]);
    assert IsTokenCut(prefix, id, trailing + [Dash]);
  }

  lemma DropAfterSeparator(front: string, sep: char)
    ensures DropTrailingEmpty(Pieces(front + [sep], sep)) == DropTrailingEmpty(Pieces(front, sep))
  {
    PiecesSnoc(front, sep, sep);
    var p := Pieces(front, sep);
    assert Pieces(front + [sep], sep) == p + [""];
    assert (p + [""])[..|p|] == p;
  }

  lemma CutAtLastPiece(s: string, id: string)
    requires id != [] && EndsWithToken(s, id, Dash)
    ensures exists prefix, trailing {:trigger IsTokenCut(prefix, id, trailing)} :: s == prefix + id + trailing && IsTokenCut(prefix, id, trailing)
  {
    var prefix := s[..|s| - |id|];
    assert s == prefix + id + [];
    assert IsTokenCut(prefix, id, []);
  }

  /** A string holding a character other than the separator keeps a token. */
  lemma {:induction false} NonSeparatorKeepsToken(s: string, k: nat, sep: char)
    requires k < |s| && s[k] != sep
    ensures DropTrailingEmpty(Pieces(s, sep)) != []
    decreases |s|
  {
    var front, c := s[..|s| - 1], s[|s| - 1];
    assert s == front + [c];
    if c == sep {
      DropAfterSeparator(front, sep);
      NonSeparatorKeepsToken(front, k, sep);
    } else {
      PiecesSnoc(front, c, sep);
      KeptLastPiece(s, sep);
    }
  }

  // ---------------------------------------------------------------------
  // What idForPath computes.

  /** idForPath returns exactly the ids that the path is cut around: both
      directions, so the id is the last run of non-dash characters, trailing
      dashes ignored, and never contains a dash. */
  lemma IdForPathCharacterization(path: string, id: string)
    ensures IdForPath(path) == Ok(id) <==>
              exists prefix, trailing {:trigger IsIdCut(prefix, id, trailing)} :: path == prefix + id + trailing && IsIdCut(prefix, id, trailing)
  {
    if IdForPath(path) == Ok(id) {
      LastTokenCut(path, id);
      var prefix, trailing :| path == prefix + id + trailing && IsTokenCut(prefix, id, trailing);
      assert IsIdCut(prefix, id, trailing);
    }
    if exists prefix, trailing {:trigger IsIdCut(prefix, id, trailing)} :: path == prefix + id + trailing && IsIdCut(prefix, id, trailing) {
      var prefix, trailing :| path == prefix + id + trailing && IsIdCut(prefix, id, trailing);
      IdOfCutPath(prefix, id, trailing);
    }
  }

  /** A path `prefix + id + trailing` cut as above yields `id`. */
  lemma IdOfCutPath(prefix: string, id: string, trailing: string)
    requires IsIdCut(prefix, id, trailing)
    ensures IdForPath(prefix + id + trailing) == Ok(id)
  {
    var path := prefix + id + trailing;
    assert Dash in path by {
      if Dash in prefix {
        var k :| 0 <= k < |prefix| && prefix[k] == Dash;
        assert path[k] == Dash;
      } else {
        assert path[|prefix| + |id|] == trailing[0];
      }
    }
    assert LastPiece(prefix, Dash) == [] by {
      if prefix != [] {
        var front := prefix[..|prefix| - 1];
        assert prefix == front + [Dash];
        PiecesSnoc(front, Dash, Dash);
      }
    }
    PiecesAppendNoSep(prefix, id, Dash);
    assert [] + id == id;
    PiecesAppendSeps(prefix + id, trailing, Dash);
    DropEmpties(Pieces(prefix + id, Dash), |trailing|);
    KeptLastPiece(prefix + id, Dash);
  }

  /** The index error happens exactly for a path made only of dashes ("-",
      "--", ...): split drops every piece, so `parts.get(-1)` fails. */
  lemma IdForPathIndexErrorExactly(path: string)
    ensures IdForPath(path) == Err(IndexOutOfBounds(-1)) <==> Dash in path && AllAre(path, Dash)
  {
    if Dash in path {
      if AllAre(path, Dash) {
        assert [] + path == path;
        PiecesAppendSeps([], path, Dash);
        assert Pieces([], Dash) == [""];
        DropEmpties([""], |path|);
        assert DropTrailingEmpty([""]) == [];
        assert Split(path, Dash) == [];
      } else {
        var k :| 0 <= k < |path| && path[k] != Dash;
        NonSeparatorKeepsToken(path, k, Dash);
      }
    }
  }

  /** A request path for priority 100 and sequence number 1. */
  lemma IdOfRequestPath()
    ensures IdForPath("/requests/100-0000000001") == Ok("0000000001")
  {
    assert "/requests/100-0000000001" == "/requests/100-" + "0000000001" + "";
    IdOfCutPath("/requests/100-", "0000000001", "");
  }

  /** Trailing dashes are dropped by split: "a-b-" gives "b". */
  lemma IdIgnoresTrailingDashes()
    ensures IdForPath("a-b-") == Ok("b")
  {
    assert "a-b-" == "a-" + "b" + "-";
    IdOfCutPath("a-", "b", "-");
  }

  /** The whole path is split, not only its last segment: a dash in a parent
      directory and none in the last segment gives the text after that dash. */
  lemma IdSpansSegments()
    ensures IdForPath("/requests-lock/0000000001") == Ok("lock/0000000001")
  {
    assert "/requests-lock/0000000001" == "/requests-" + "lock/0000000001" + "";
    IdOfCutPath("/requests-", "lock/0000000001", "");
  }

  /** "-" splits into no pieces at all, so idForPath fails with an index error
      rather than a NodePoolException. */
  lemma IdOfLoneDash()
    ensures IdForPath("-") == Err(IndexOutOfBounds(-1))
  {
    IdForPathIndexErrorExactly("-");
  }
}
