/** Lists of tokens as text, one separator between each two. */
module SeparatedText {
  function Join(tokens: seq<string>, separator: char): string
    requires tokens != []
  {
    if |tokens| == 1 then tokens[0]
    else Join(tokens[..|tokens| - 1], separator) + [separator] + tokens[|tokens| - 1]
  }

  function Split(text: string, separator: char): (tokens: seq<string>)
    ensures tokens != []
  {
    if text == [] then [[]]
    else
      var front := Split(text[..|text| - 1], separator);
      var c := text[|text| - 1];
      if c == separator then front + [[]] else Extend(front, c)
  }

  function Extend(tokens: seq<string>, c: char): (r: seq<string>)
    requires tokens != []
    ensures r != []
  {
    tokens[..|tokens| - 1] + [tokens[|tokens| - 1] + [c]]
  }

  predicate Plain(tokens: seq<string>, separator: char) {
    forall i | 0 <= i < |tokens| :: separator !in tokens[i]
  }

  lemma JoinOfOneMore(tokens: seq<string>, token: string, separator: char)
    requires tokens != []
    ensures Join(tokens + [token], separator) == Join(tokens, separator) + [separator] + token
  {
    assert (tokens + [token])[..|tokens|] == tokens;
  }

  lemma {:induction false} JoinOfConcat(s: seq<string>, t: seq<string>, separator: char)
    requires s != [] && t != []
    ensures Join(s + t, separator) == Join(s, separator) + [separator] + Join(t, separator)
  {
    var front, last := t[..|t| - 1], t[|t| - 1];
    JoinOfOneMore(s + front, last, separator);
    assert s + t == s + front + [last];
    if front == [] {
      assert s + front == s && t == [last];
    } else {
      JoinOfConcat(s, front, separator);
      JoinOfOneMore(front, last, separator);
      assert front + [last] == t;
    }
  }

  lemma {:induction false} JoinAvoids(tokens: seq<string>, separator: char, c: char)
    requires tokens != [] && Plain(tokens, c) && c != separator
    ensures c !in Join(tokens, separator)
  {
    if |tokens| <= 1 {
    } else {
      JoinAvoids(tokens[..|tokens| - 1], separator, c);
    }
  }

  lemma SplitOfOneMore(text: string, c: char, separator: char)
    ensures Split(text + [c], separator)
            == if c == separator then Split(text, separator) + [[]] else Extend(Split(text, separator), c)
  {
    assert (text + [c])[..|text|] == text;
  }

  lemma {:induction false} SplitOfPlain(token: string, separator: char)
    requires separator !in token
    ensures Split(token, separator) == [token]
  {
    if token == [] {
    } else {
      var front := token[..|token| - 1];
      SplitOfPlain(front, separator);
      assert token == front + [token[|token| - 1]];
    }
  }

  lemma {:induction false} SplitOfAppend(text: string, token: string, separator: char)
    requires separator !in token
    ensures Split(text + [separator] + token, separator) == Split(text, separator) + [token]
  {
    if token == [] {
      SplitOfOneMore(text, separator, separator);
      assert text + [separator] + token == text + [separator];
    } else {
      var front, c := token[..|token| - 1], token[|token| - 1];
      SplitOfAppend(text, front, separator);
      SplitOfOneMore(text + [separator] + front, c, separator);
      assert front + [c] == token;
      assert text + [separator] + token == text + [separator] + front + [c];
    }
  }

  lemma {:induction false} SplitOfJoin(tokens: seq<string>, separator: char)
    requires tokens != [] && Plain(tokens, separator)
    ensures Split(Join(tokens, separator), separator) == tokens
  {
    if |tokens| == 1 {
      SplitOfPlain(tokens[0], separator);
    } else {
      var front, last := tokens[..|tokens| - 1], tokens[|tokens| - 1];
      SplitOfJoin(front, separator);
      var text := Join(front, separator);
      SplitOfAppend(text, last, separator);
      assert front + [last] == tokens;
    }
  }

  /** A list of tokens that hold no separator is determined by its text. */
  lemma JoinIsInjective(s: seq<string>, t: seq<string>, separator: char)
    requires s != [] && Plain(s, separator)
    requires t != [] && Plain(t, separator)
    requires Join(s, separator) == Join(t, separator)
    ensures s == t
  {
    SplitOfJoin(s, separator);
    SplitOfJoin(t, separator);
  }
}
