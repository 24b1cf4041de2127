/**
 * The `COM_Parse` tokenizer of utility/Tokenization.cpp over a NUL-terminated
 * text. A text pointer is a position in the text (`None` is null); reading at or
 * past the end of the text yields NUL.
 */
module Tokenization {
  import opened Wrappers
  import opened CStrings

  /** The result of one `COM_Parse` call: the token buffer and the returned pointer. */
  datatype Parsed = Parsed(token: string, rest: Option<nat>)

  /** The characters that always form a token of their own. */
  predicate IsPunctuation(c: char)
  {
    c == '{' || c == '}' || c == ')' || c == '(' || c == '\'' || c == ','
  }

  /** A character the skip loop passes over: a non-NUL character whose signed value is at most ' '. */
  predicate IsBlank(c: char)
  {
    c != '\0' && SignedChar(c) <= 32
  }

  predicate StartsComment(s: string, i: nat)
  {
    At(s, i) == '/' && At(s, i + 1) == '/'
  }

  /** The position of the newline or NUL that ends the comment or line starting at `i`. */
  function LineEnd(s: string, i: nat): (j: nat)
    requires i <= |s|
    ensures i <= j <= |s|
    ensures At(s, j) == '\0' || At(s, j) == '\n'
    ensures forall k :: i <= k < j ==> s[k] != '\0' && s[k] != '\n'
    decreases |s| - i
  {
    if At(s, i) == '\0' || At(s, i) == '\n' then i else LineEnd(s, i + 1)
  }

  /**
   * The `skipwhite` loop with its comment skipping: the position of the first
   * character of the next token, or `None` when a NUL comes first.
   */
  function SkipWhite(s: string, i: nat): (r: Option<nat>)
    requires i <= |s| + 1
    ensures r.Some? ==> i <= r.value < |s|
    ensures r.Some? ==> !IsBlank(s[r.value]) && s[r.value] != '\0' && !StartsComment(s, r.value)
    ensures r.Some? ==> forall k :: i <= k < r.value ==> s[k] != '\0'
    decreases |s| + 1 - i
  {
    var c := At(s, i);
    if SignedChar(c) <= 32 then
      if c == '\0' then None else SkipWhite(s, i + 1)
    else if StartsComment(s, i) then
      SkipWhite(s, LineEnd(s, i))
    else
      Some(i)
  }

  /** The position of the closing quote, or of the NUL, of a quoted token whose text starts at `i`. */
  function QuoteEnd(s: string, i: nat): (j: nat)
    requires i <= |s|
    ensures i <= j <= |s|
    ensures At(s, j) == '"' || At(s, j) == '\0'
    ensures forall k :: i <= k < j ==> s[k] != '"' && s[k] != '\0'
    decreases |s| - i
  {
    if At(s, i) == '"' || At(s, i) == '\0' then i else QuoteEnd(s, i + 1)
  }

  /** The end of a word whose first character is before `i`. */
  function WordEnd(s: string, i: nat): (j: nat)
    requires i <= |s|
    ensures i <= j <= |s|
    ensures IsPunctuation(At(s, j)) || SignedChar(At(s, j)) <= 32
    ensures forall k :: i <= k < j ==> !IsPunctuation(s[k]) && SignedChar(s[k]) > 32
    decreases |s| - i
  {
    if IsPunctuation(At(s, i)) || SignedChar(At(s, i)) <= 32 then i else WordEnd(s, i + 1)
  }

  /** `COM_Parse(data)`. */
  function Parse(s: string, data: Option<nat>): (r: Parsed)
    requires data.Some? ==> data.value <= |s| + 1
    ensures data.None? ==> r == Parsed("", None)
    ensures r.rest.None? ==> r.token == ""
    ensures r.rest.Some? ==> data.Some? && data.value < r.rest.value <= |s| + 1
  {
    if data.None? then Parsed("", None)
    else
      match SkipWhite(s, data.value)
      case None => Parsed("", None)
      case Some(k) =>
        if s[k] == '"' then
          var j := QuoteEnd(s, k + 1);
          Parsed(s[k + 1..j], Some(j + 1))
        else if IsPunctuation(s[k]) then
          Parsed([s[k]], Some(k + 1))
        else
          var j := WordEnd(s, k + 1);
          Parsed(s[k..j], Some(j))
  }

  /** Text that holds only blanks up to its terminating NUL yields no token. */
  lemma {:induction false} BlankTextHasNoToken(s: string, i: nat)
    requires i <= |s| + 1
    requires forall k :: i <= k < |s| ==> IsBlank(s[k])
    ensures Parse(s, Some(i)) == Parsed("", None)
    decreases |s| + 1 - i
  {
    if i < |s| {
      BlankTextHasNoToken(s, i + 1);
    }
  }

  /** A `//` comment reaching to the end of the text yields no token either. */
  lemma TrailingCommentHasNoToken(s: string, i: nat)
    requires i + 2 <= |s|
    requires s[i] == '/' && s[i + 1] == '/'
    requires forall k :: i <= k < |s| ==> s[k] != '\n' && s[k] != '\0'
    ensures Parse(s, Some(i)) == Parsed("", None)
  {
  }

  /** A `//` comment is skipped up to the next newline, and tokenising resumes there. */
  lemma CommentSkippedToLineEnd(s: string, i: nat)
    requires i < |s| && s[i] == '/' && At(s, i + 1) == '/'
    ensures Parse(s, Some(i)) == Parse(s, Some(LineEnd(s, i)))
  {
  }

  /** Blanks before a token are skipped. */
  lemma BlankSkipped(s: string, i: nat)
    requires i < |s| && IsBlank(s[i])
    ensures Parse(s, Some(i)) == Parse(s, Some(i + 1))
  {
  }

  /** A quoted token is the text between the quotes; parsing resumes after the closing quote. */
  lemma QuotedToken(s: string, i: nat, j: nat)
    requires i < j < |s| && s[i] == '"' && s[j] == '"'
    requires forall k :: i < k < j ==> s[k] != '"' && s[k] != '\0'
    ensures Parse(s, Some(i)) == Parsed(s[i + 1..j], Some(j + 1))
  {
    QuoteEndIs(s, i + 1, j);
  }

  /** An unterminated quote takes the rest of the text and resumes one past the NUL. */
  lemma UnterminatedQuote(s: string, i: nat)
    requires i < |s| && s[i] == '"'
    requires forall k :: i < k < |s| ==> s[k] != '"' && s[k] != '\0'
    ensures Parse(s, Some(i)) == Parsed(s[i + 1..], Some(|s| + 1))
  {
    QuoteEndIs(s, i + 1, |s|);
  }

  lemma {:induction false} QuoteEndIs(s: string, i: nat, j: nat)
    requires i <= j <= |s|
    requires At(s, j) == '"' || At(s, j) == '\0'
    requires forall k :: i <= k < j ==> s[k] != '"' && s[k] != '\0'
    ensures QuoteEnd(s, i) == j
    decreases j - i
  {
    if i < j {
      QuoteEndIs(s, i + 1, j);
    }
  }

  /** A punctuation character is a token of its own, and parsing advances by one. */
  lemma PunctuationToken(s: string, i: nat)
    requires i < |s| && IsPunctuation(s[i])
    ensures Parse(s, Some(i)) == Parsed([s[i]], Some(i + 1))
  {
  }

  /** A word token holds no character at or below ' ' and no punctuation after its first character. */
  lemma WordTokenShape(s: string, i: nat)
    requires i <= |s| + 1
    requires Parse(s, Some(i)).rest.Some?
    ensures var k := SkipWhite(s, i).value;
      s[k] != '"' && !IsPunctuation(s[k]) ==>
        var r := Parse(s, Some(i));
        && |r.token| >= 1 && r.token == s[k..r.rest.value]
        && (forall m :: 0 <= m < |r.token| ==> SignedChar(r.token[m]) > 32)
        && (forall m :: 1 <= m < |r.token| ==> !IsPunctuation(r.token[m]))
        && (IsPunctuation(At(s, r.rest.value)) || SignedChar(At(s, r.rest.value)) <= 32)
  {
    var k := SkipWhite(s, i).value;
    if s[k] != '"' && !IsPunctuation(s[k]) {
      var j := WordEnd(s, k + 1);
      assert Parse(s, Some(i)) == Parsed(s[k..j], Some(j));
      WordSlice(s, k, j);
    }
  }

  lemma WordSlice(s: string, k: nat, j: nat)
    requires k < j <= |s| && SignedChar(s[k]) > 32
    requires forall m :: k + 1 <= m < j ==> !IsPunctuation(s[m]) && SignedChar(s[m]) > 32
    ensures forall m :: 0 <= m < |s[k..j]| ==> SignedChar(s[k..j][m]) > 32
    ensures forall m :: 1 <= m < |s[k..j]| ==> !IsPunctuation(s[k..j][m])
  {
    var t := s[k..j];
    forall m | 0 <= m < |t|
      ensures SignedChar(t[m]) > 32 && (m >= 1 ==> !IsPunctuation(t[m]))
    {
      assert t[m] == s[k + m];
    }
  }

  /**
   * Every token `Parse` returns, for every text and start: it begins at the
   * first character that is neither blank nor a comment, before any NUL, and is
   * either the text up to the closing quote (or the NUL), one punctuation
   * character, or a word of characters above ' ' with no punctuation after its
   * first character.
   */
  lemma TokenShape(s: string, i: nat)
    requires i <= |s| + 1
    ensures var r := Parse(s, Some(i));
      r.rest.None? <==> NothingFrom(s, i)
    ensures var r := Parse(s, Some(i));
      r.rest.Some? ==> var k := SkipWhite(s, i).value;
        && i <= k < |s| && (forall m :: i <= m < k ==> s[m] != '\0')
        && s[k] != '\0' && !IsBlank(s[k]) && !StartsComment(s, k)
        && (s[k] == '"' ==>
              && k + 1 <= r.rest.value - 1 <= |s|
              && r.token == s[k + 1..r.rest.value - 1]
              && (At(s, r.rest.value - 1) == '"' || At(s, r.rest.value - 1) == '\0')
              && forall m :: 0 <= m < |r.token| ==> r.token[m] != '"' && r.token[m] != '\0')
        && (IsPunctuation(s[k]) ==> r.token == [s[k]] && r.rest.value == k + 1)
        && (s[k] != '"' && !IsPunctuation(s[k]) ==>
              && k < r.rest.value <= |s| && r.token == s[k..r.rest.value]
              && (forall m :: 0 <= m < |r.token| ==> SignedChar(r.token[m]) > 32)
              && (forall m :: 1 <= m < |r.token| ==> !IsPunctuation(r.token[m])))
  {
    NoTokenIff(s, i);
    var r := Parse(s, Some(i));
    if r.rest.Some? {
      var k := SkipWhite(s, i).value;
      if s[k] == '"' {
        QuotedTokenShape(s, i);
      } else if !IsPunctuation(s[k]) {
        WordTokenShape(s, i);
      }
    }
  }

  /** A quoted token is the text up to the closing quote or the NUL, and holds neither. */
  lemma QuotedTokenShape(s: string, i: nat)
    requires i <= |s| + 1
    requires Parse(s, Some(i)).rest.Some?
    ensures var k := SkipWhite(s, i).value;
      s[k] == '"' ==>
        var r := Parse(s, Some(i));
        && k + 1 <= r.rest.value - 1 <= |s|
        && r.token == s[k + 1..r.rest.value - 1]
        && (At(s, r.rest.value - 1) == '"' || At(s, r.rest.value - 1) == '\0')
        && forall m :: 0 <= m < |r.token| ==> r.token[m] != '"' && r.token[m] != '\0'
  {
    var k := SkipWhite(s, i).value;
    if s[k] == '"' {
      var j := QuoteEnd(s, k + 1);
      ParseQuoted(s, i, k, j);
      QuotedSlice(s, k + 1, j);
    }
  }

  lemma ParseQuoted(s: string, i: nat, k: nat, j: nat)
    requires i <= |s| + 1 && SkipWhite(s, i) == Some(k) && s[k] == '"' && j == QuoteEnd(s, k + 1)
    ensures Parse(s, Some(i)) == Parsed(s[k + 1..j], Some(j + 1))
  {
  }

  lemma QuotedSlice(s: string, a: nat, j: nat)
    requires a <= j <= |s|
    requires forall m :: a <= m < j ==> s[m] != '"' && s[m] != '\0'
    ensures forall m :: 0 <= m < |s[a..j]| ==> s[a..j][m] != '"' && s[a..j][m] != '\0'
  {
    var t := s[a..j];
    forall m | 0 <= m < |t|
      ensures t[m] != '"' && t[m] != '\0'
    {
      assert t[m] == s[a + m];
    }
  }

  /**
   * Position `k` lies inside a `//` comment that starts at or after `i`: some
   * comment opens at `c` with no newline between it and `k`.
   */
  predicate InComment(s: string, i: nat, k: nat)
    requires k < |s|
  {
    exists c :: i <= c <= k && StartsComment(s, c) && forall m :: c <= m <= k ==> s[m] != '\n'
  }

  /** Before the first NUL from `i`, every character is blank or inside a comment. */
  predicate NothingFrom(s: string, i: nat)
  {
    forall k :: i <= k < |s| && (forall m :: i <= m < k ==> s[m] != '\0') ==>
                s[k] == '\0' || IsBlank(s[k]) || InComment(s, i, k)
  }

  /** `SkipWhite` finds nothing exactly when everything before the first NUL is blank or comment. */
  lemma {:induction false} NoTokenIff(s: string, i: nat)
    requires i <= |s| + 1
    ensures SkipWhite(s, i).None? <==> NothingFrom(s, i)
    decreases |s| + 1 - i
  {
    var c := At(s, i);
    if SignedChar(c) <= 32 {
      if c == '\0' {
        NothingAtNul(s, i);
      } else {
        NoTokenIff(s, i + 1);
        NothingPastBlank(s, i);
      }
    } else if StartsComment(s, i) {
      NoTokenIff(s, LineEnd(s, i));
      NothingPastComment(s, i, LineEnd(s, i));
    } else {
      NothingAtToken(s, i);
    }
  }

  lemma NothingAtNul(s: string, i: nat)
    requires At(s, i) == '\0'
    ensures NothingFrom(s, i)
  {
    assert i < |s| ==> s[i] == '\0';
    forall k | i <= k < |s| && (forall m :: i <= m < k ==> s[m] != '\0')
      ensures s[k] == '\0'
    {
      assert k == i;
    }
  }

  lemma NothingAtToken(s: string, i: nat)
    requires SignedChar(At(s, i)) > 32 && !StartsComment(s, i)
    ensures !NothingFrom(s, i)
  {
    assert i < |s|;
    assert InComment(s, i, i) ==> StartsComment(s, i);
  }

  lemma NothingPastBlank(s: string, i: nat)
    requires i < |s| && IsBlank(s[i])
    ensures NothingFrom(s, i) <==> NothingFrom(s, i + 1)
  {
    forall k | i + 1 <= k < |s|
      ensures InComment(s, i, k) <==> InComment(s, i + 1, k)
    {
      if InComment(s, i, k) {
        var w :| i <= w <= k && StartsComment(s, w) && forall m :: w <= m <= k ==> s[m] != '\n';
        assert w != i;
      }
    }
    if NothingFrom(s, i + 1) {
      forall k | i <= k < |s| && (forall m :: i <= m < k ==> s[m] != '\0')
        ensures s[k] == '\0' || IsBlank(s[k]) || InComment(s, i, k)
      {
        if i < k {
          assert forall m :: i + 1 <= m < k ==> s[m] != '\0';
        }
      }
    }
  }

  lemma NothingPastComment(s: string, i: nat, e: nat)
    requires i <= |s| && StartsComment(s, i) && e == LineEnd(s, i)
    ensures NothingFrom(s, i) <==> NothingFrom(s, e)
  {
    CommentCovers(s, i, e);
    if At(s, e) == '\n' {
      CommentEndsAtNewline(s, i, e);
    } else {
      NothingAtNul(s, e);
      CommentEndsAtNul(s, i, e);
    }
  }

  lemma CommentEndsAtNul(s: string, i: nat, e: nat)
    requires i <= e <= |s| && At(s, e) == '\0'
    requires forall k :: i <= k < e ==> InComment(s, i, k)
    ensures NothingFrom(s, i)
  {
    assert e < |s| ==> s[e] == '\0';
    forall k | i <= k < |s| && (forall m :: i <= m < k ==> s[m] != '\0')
      ensures s[k] == '\0' || IsBlank(s[k]) || InComment(s, i, k)
    {
      assert k <= e;
    }
  }

  lemma CommentEndsAtNewline(s: string, i: nat, e: nat)
    requires i <= e < |s| && s[e] == '\n'
    requires forall k :: i <= k < e ==> s[k] != '\0' && InComment(s, i, k)
    ensures NothingFrom(s, i) <==> NothingFrom(s, e)
  {
    InCommentPastNewline(s, i, e);
    if NothingFrom(s, e) {
      forall k | i <= k < |s| && (forall m :: i <= m < k ==> s[m] != '\0')
        ensures s[k] == '\0' || IsBlank(s[k]) || InComment(s, i, k)
      {
        if e <= k {
          assert forall m :: e <= m < k ==> s[m] != '\0';
        }
      }
    }
    if NothingFrom(s, i) {
      forall k | e <= k < |s| && (forall m :: e <= m < k ==> s[m] != '\0')
        ensures s[k] == '\0' || IsBlank(s[k]) || InComment(s, e, k)
      {
        assert forall m :: i <= m < k ==> s[m] != '\0';
      }
    }
  }

  /** Past a newline, no comment opened before it reaches further. */
  lemma InCommentPastNewline(s: string, i: nat, e: nat)
    requires i <= e < |s| && s[e] == '\n'
    ensures forall k :: e <= k < |s| ==> (InComment(s, i, k) <==> InComment(s, e, k))
  {
    forall k | e <= k < |s|
      ensures InComment(s, i, k) <==> InComment(s, e, k)
    {
      if InComment(s, i, k) {
        var w :| i <= w <= k && StartsComment(s, w) && forall m :: w <= m <= k ==> s[m] != '\n';
        assert s[e] == '\n';
      }
    }
  }

  /** Every position of a comment before its line end lies inside it. */
  lemma CommentCovers(s: string, i: nat, e: nat)
    requires i <= |s| && StartsComment(s, i) && e == LineEnd(s, i)
    ensures forall k :: i <= k < e ==> InComment(s, i, k)
  {
    forall k | i <= k < e
      ensures InComment(s, i, k)
    {
      assert forall m :: i <= m <= k ==> s[m] != '\n';
    }
  }

  /**
   * `COM_TokenWaiting`: 1 iff a character that is not white space comes before
   * the next newline or the end of the text.
   */
  method TokenWaiting(s: string, buffer: nat) returns (r: int)
    ensures r == 0 || r == 1
    ensures r == 1 <==> exists j :: buffer <= j < |s| && s[j] != '\0' && !IsSpace(s[j])
                                    && forall k :: buffer <= k < j ==> s[k] != '\0' && s[k] != '\n'
  {
    var p := buffer;
    while At(s, p) != '\0' && At(s, p) != '\n'
      invariant buffer <= p
      invariant forall k :: buffer <= k < p ==> k < |s| && s[k] != '\0' && s[k] != '\n' && IsSpace(s[k])
      decreases |s| - p
    {
      if !IsSpace(s[p]) || IsAlnum(s[p]) {
        return 1;
      }
      p := p + 1;
    }
    return 0;
  }
}
