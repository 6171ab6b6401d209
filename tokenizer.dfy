/**
 * The `split` helper of Lab2/main.cpp: std::getline pieces of the input
 * between occurrences of a separator, each trimmed of at most one leading
 * and one trailing space.
 */
module Tokenizer {
  import opened Text

  /**
   * All the pieces between separators, including an empty one at each end
   * when the text starts or ends with sep.
   */
  function Pieces(s: string, sep: char): (ps: seq<string>)
    ensures |ps| >= 1
  {
    if s == [] then [""]
    else
      var init := Pieces(s[..|s| - 1], sep);
      if s[|s| - 1] == sep then init + [""]
      else init[..|init| - 1] + [init[|init| - 1] + [s[|s| - 1]]]
  }

  /**
   * The tokens std::getline reads: the pieces, except that an empty text
   * gives none and a trailing separator ends the last token rather than
   * starting an empty one.
   */
  function Tokens(s: string, sep: char): seq<string>
  {
    if s == [] then []
    else if s[|s| - 1] == sep then Pieces(s[..|s| - 1], sep)
    else Pieces(s, sep)
  }

  /** The two guarded erasures: one leading space, then one trailing space. */
  function Trim(token: string): (t: string)
  {
    var t1 := if token != [] && token[0] == ' ' then token[1..] else token;
    if t1 != [] && t1[|t1| - 1] == ' ' then t1[..|t1| - 1] else t1
  }

  function TrimAll(tokens: seq<string>): (ts: seq<string>)
    ensures |ts| == |tokens|
  {
    seq(|tokens|, i requires 0 <= i < |tokens| => Trim(tokens[i]))
  }

  /** The scan after i characters: the closed pieces trimmed into result, and the open one. */
  ghost predicate Scanned(input: string, sep: char, i: nat, result: seq<string>, raw: seq<string>, token: string)
    requires i <= |input|
  {
    && Pieces(input[..i], sep) == raw + [token]
    && |result| == |raw| && (forall k :: 0 <= k < |raw| ==> result[k] == Trim(raw[k]))
    && (i > 0 && input[i - 1] != sep ==> token != [])
    && (i > 0 && input[i - 1] == sep ==> token == [])
  }

  /** split(input, sep). */
  method Split(input: string, sep: char) returns (result: seq<string>)
    ensures result == TrimAll(Tokens(input, sep))
  {
    result := [];
    ghost var raw: seq<string> := [];
    var token := "";
    for i := 0 to |input|
      invariant Scanned(input, sep, i, result, raw, token)
    {
      result, raw, token := ScanOne(input, sep, i, result, raw, token);
    }
    assert input[..|input|] == input;
    FinalTokens(input, sep, raw, token);
    if token != [] {
      var trimmed := TrimToken(token);
      result := result + [trimmed];
      raw := raw + [token];
    }
    assert result == TrimAll(raw);
  }

  /** One turn of the getline loop: a separator closes the open token, anything else extends it. */
  method ScanOne(input: string, sep: char, i: nat, result: seq<string>, ghost raw: seq<string>, token: string)
    returns (result': seq<string>, ghost raw': seq<string>, token': string)
    requires i < |input| && Scanned(input, sep, i, result, raw, token)
    ensures Scanned(input, sep, i + 1, result', raw', token')
  {
    PiecesStep(input, i, sep, raw, token);
    if input[i] == sep {
      var trimmed := TrimToken(token);
      result', raw', token' := result + [trimmed], raw + [token], "";
    } else {
      result', raw', token' := result, raw, token + [input[i]];
    }
  }

  /** The in-place trim of one token: erase a leading space, then pop a trailing one. */
  method TrimToken(token: string) returns (trimmed: string)
    ensures trimmed == Trim(token)
    ensures |token| - 2 <= |trimmed| <= |token|
  {
    trimmed := token;
    if trimmed != [] && trimmed[0] == ' ' {
      trimmed := trimmed[1..];
    }
    if trimmed != [] && trimmed[|trimmed| - 1] == ' ' {
      trimmed := trimmed[..|trimmed| - 1];
    }
  }

  /** Reading one more character: a separator closes the open piece, anything else extends it. */
  lemma PiecesStep(input: string, i: nat, sep: char, raw: seq<string>, token: string)
    requires i < |input| && Pieces(input[..i], sep) == raw + [token]
    ensures input[i] == sep ==> Pieces(input[..i + 1], sep) == (raw + [token]) + [""]
    ensures input[i] != sep ==> Pieces(input[..i + 1], sep) == raw + [token + [input[i]]]
  {
    assert input[..i + 1][..i] == input[..i];
    if input[i] != sep {
      var init := raw + [token];
      assert init[..|init| - 1] == raw;
    }
  }

  /** At the end of the text, the open piece is a token exactly when it is not empty. */
  lemma FinalTokens(input: string, sep: char, raw: seq<string>, token: string)
    requires Pieces(input, sep) == raw + [token]
    requires input != [] && input[|input| - 1] != sep ==> token != []
    requires input != [] && input[|input| - 1] == sep ==> token == []
    ensures Tokens(input, sep) == if token != [] then raw + [token] else raw
  {
    if input == [] {
      assert [""] == raw + [token];
      assert |raw| == 0 && token == (raw + [token])[0] == "";
    } else if input[|input| - 1] == sep {
      var init := Pieces(input[..|input| - 1], sep);
      assert init + [""] == raw + [token];
      assert |init| == |raw|;
      assert forall k :: 0 <= k < |init| ==> init[k] == (init + [""])[k] == (raw + [token])[k] == raw[k];
    }
  }

  /** No piece contains the separator. */
  lemma {:induction false} PiecesAvoidSep(s: string, sep: char)
    ensures forall i :: 0 <= i < |Pieces(s, sep)| ==> sep !in Pieces(s, sep)[i]
  {
    if s != [] {
      PiecesAvoidSep(s[..|s| - 1], sep);
    }
  }

  /** Joining the pieces with sep gives back the text. */
  lemma {:induction false} JoinPieces(s: string, sep: char)
    ensures Join(Pieces(s, sep), sep) == s
  {
    if s != [] {
      var init := Pieces(s[..|s| - 1], sep);
      JoinPieces(s[..|s| - 1], sep);
      var c := s[|s| - 1];
      if c == sep {
        JoinSnoc(init, "", sep);
      } else {
        var last := init[|init| - 1];
        JoinExtendLast(init, c, sep);
      }
    }
  }

  lemma {:induction false} JoinSnoc(parts: seq<string>, p: string, sep: char)
    requires |parts| >= 1
    ensures Join(parts + [p], sep) == Join(parts, sep) + [sep] + p
  {
    if |parts| > 1 {
      assert (parts + [p])[1..] == parts[1..] + [p];
      JoinSnoc(parts[1..], p, sep);
    }
  }

  lemma {:induction false} JoinExtendLast(parts: seq<string>, c: char, sep: char)
    requires |parts| >= 1
    ensures Join(parts[..|parts| - 1] + [parts[|parts| - 1] + [c]], sep) == Join(parts, sep) + [c]
  {
    if |parts| > 1 {
      var parts' := parts[..|parts| - 1] + [parts[|parts| - 1] + [c]];
      assert parts'[1..] == parts[1..][..|parts| - 2] + [parts[1..][|parts| - 2] + [c]];
      JoinExtendLast(parts[1..], c, sep);
    }
  }

  /**
   * The tokens never contain sep, and joining them with sep gives back the
   * input without its one trailing separator, if it has one.
   */
  lemma TokensRoundTrip(s: string, sep: char)
    ensures forall i :: 0 <= i < |Tokens(s, sep)| ==> sep !in Tokens(s, sep)[i]
    ensures s == [] || s[|s| - 1] != sep ==> Join(Tokens(s, sep), sep) == s
    ensures s != [] && s[|s| - 1] == sep ==> Join(Tokens(s, sep), sep) + [sep] == s
  {
    if s != [] {
      if s[|s| - 1] == sep {
        PiecesAvoidSep(s[..|s| - 1], sep);
        JoinPieces(s[..|s| - 1], sep);
      } else {
        PiecesAvoidSep(s, sep);
        JoinPieces(s, sep);
      }
    }
  }

  /** A text without separators is a single piece. */
  lemma {:induction false} PiecesOfPlain(p: string, sep: char)
    requires sep !in p
    ensures Pieces(p, sep) == [p]
  {
    if p != [] {
      PiecesOfPlain(p[..|p| - 1], sep);
      assert p[..|p| - 1] + [p[|p| - 1]] == p;
    }
  }

  /** A separator followed by a plain text adds that text as one more piece. */
  lemma {:induction false} PiecesAppend(s: string, p: string, sep: char)
    requires sep !in p
    ensures Pieces(s + [sep] + p, sep) == Pieces(s, sep) + [p]
  {
    if p == [] {
      assert s + [sep] + p == s + [sep];
      assert (s + [sep])[..|s|] == s;
    } else {
      var p' := p[..|p| - 1];
      var t := s + [sep] + p;
      PiecesAppend(s, p', sep);
      assert t[..|t| - 1] == s + [sep] + p';
      assert p' + [p[|p| - 1]] == p;
    }
  }

  /** Splitting a join into its pieces gives the parts back, when no part contains sep. */
  lemma {:induction false} PiecesOfJoin(parts: seq<string>, sep: char)
    requires |parts| >= 1
    requires forall i :: 0 <= i < |parts| ==> sep !in parts[i]
    ensures Pieces(Join(parts, sep), sep) == parts
  {
    if |parts| == 1 {
      PiecesOfPlain(parts[0], sep);
    } else {
      var init := parts[..|parts| - 1];
      var last := parts[|parts| - 1];
      assert init + [last] == parts;
      JoinSnoc(init, last, sep);
      PiecesOfJoin(init, sep);
      PiecesAppend(Join(init, sep), last, sep);
    }
  }

  /**
   * split inverts a join: parts free of sep and of edge spaces, the last
   * one not empty, come back unchanged.
   */
  lemma SplitOfJoin(parts: seq<string>, sep: char)
    requires forall i :: 0 <= i < |parts| ==> sep !in parts[i]
    requires forall i :: 0 <= i < |parts| ==> Trim(parts[i]) == parts[i]
    requires parts != [] ==> parts[|parts| - 1] != []
    ensures TrimAll(Tokens(Join(parts, sep), sep)) == parts
  {
    if parts != [] {
      PiecesOfJoin(parts, sep);
      var text := Join(parts, sep);
      JoinEndsWithLast(parts, sep);
      assert text != [] && text[|text| - 1] != sep;
    }
  }

  /** A join ends with its last part. */
  lemma {:induction false} JoinEndsWithLast(parts: seq<string>, sep: char)
    requires parts != []
    ensures var text := Join(parts, sep);
      |text| >= |parts[|parts| - 1]| && text[|text| - |parts[|parts| - 1]|..] == parts[|parts| - 1]
  {
    if |parts| > 1 {
      JoinEndsWithLast(parts[1..], sep);
      var text := Join(parts, sep);
      var rest := Join(parts[1..], sep);
      assert text == (parts[0] + [sep]) + rest;
    }
  }

  /**
   * Trimming removes at most one space from each end: the result is the
   * token with lo characters dropped in front and hi at the back, each 0 or
   * 1, and a dropped character is always a space.
   */
  lemma TrimDropsAtMostOneEach(token: string) returns (lo: nat, hi: nat)
    ensures lo <= 1 && hi <= 1 && lo + hi <= |token|
    ensures Trim(token) == token[lo..|token| - hi]
    ensures lo == 1 ==> token[0] == ' '
    ensures hi == 1 ==> token[|token| - 1] == ' '
  {
    lo := if token != [] && token[0] == ' ' then 1 else 0;
    var t1 := token[lo..];
    hi := if t1 != [] && t1[|t1| - 1] == ' ' then 1 else 0;
  }
}
