/** The string operations the legacy-command parser uses: `split(" ")`,
 *  its inverse `join(" ")`, and `startsWith`. */
module Text {

  const Space: char := ' '

  predicate StartsWith(s: string, prefix: string) {
    |prefix| <= |s| && s[..|prefix|] == prefix
  }

  predicate NoSpace(token: string) {
    forall k :: 0 <= k < |token| ==> token[k] != Space
  }

  /** `s.split(" ")`: the maximal space-free pieces between single spaces.
   *  Repeated, leading and trailing spaces produce empty tokens, and the
   *  empty string yields `[""]`. */
  function Split(s: string): (tokens: seq<string>)
    ensures |tokens| >= 1
    ensures forall i :: 0 <= i < |tokens| ==> NoSpace(tokens[i])
    decreases |s|
  {
    if s == [] then [""]
    else if s[0] == Space then [""] + Split(s[1..])
    else
      var rest := Split(s[1..]);
      [[s[0]] + rest[0]] + rest[1..]
  }

  /** `tokens.join(" ")`. */
  function Join(tokens: seq<string>): string
    decreases |tokens|
  {
    if |tokens| == 0 then ""
    else if |tokens| == 1 then tokens[0]
    else tokens[0] + [Space] + Join(tokens[1..])
  }

  lemma JoinCons(t: string, rest: seq<string>)
    requires |rest| >= 1
    ensures Join([t] + rest) == t + [Space] + Join(rest)
  {
    assert ([t] + rest)[1..] == rest;
  }

  /** Joining the tokens with single spaces gives back the text exactly. */
  lemma {:induction false} JoinSplit(s: string)
    ensures Join(Split(s)) == s
    decreases |s|
  {
    if s == [] {
    } else if s[0] == Space {
      JoinSplit(s[1..]);
      JoinCons("", Split(s[1..]));
      assert s == [Space] + s[1..];
    } else {
      var rest := Split(s[1..]);
      JoinSplit(s[1..]);
      if |rest| == 1 {
        assert Split(s) == [[s[0]] + rest[0]];
        assert s == [s[0]] + s[1..];
      } else {
        JoinCons(rest[0], rest[1..]);
        assert rest == [rest[0]] + rest[1..];
        JoinCons([s[0]] + rest[0], rest[1..]);
        assert Split(s) == [[s[0]] + rest[0]] + rest[1..];
        assert s == [s[0]] + s[1..];
      }
    }
  }

  /** Splitting a single-space join of space-free tokens recovers the tokens. */
  lemma {:induction false} SplitJoin(tokens: seq<string>)
    requires |tokens| >= 1
    requires forall i :: 0 <= i < |tokens| ==> NoSpace(tokens[i])
    ensures Split(Join(tokens)) == tokens
    decreases |tokens|, |tokens[0]|
  {
    var t := tokens[0];
    if |tokens| == 1 {
      SplitToken(t);
    } else if t == [] {
      JoinCons(t, tokens[1..]);
      assert Join(tokens) == [Space] + Join(tokens[1..]);
      assert Join(tokens)[1..] == Join(tokens[1..]);
      SplitJoin(tokens[1..]);
      assert tokens == [""] + tokens[1..];
    } else {
      var shorter := [t[1..]] + tokens[1..];
      assert shorter[1..] == tokens[1..];
      assert forall i :: 0 <= i < |shorter| ==> NoSpace(shorter[i]) by {
        assert NoSpace(t);
      }
      JoinCons(t, tokens[1..]);
      JoinCons(t[1..], tokens[1..]);
      assert t == [t[0]] + t[1..];
      assert Join(tokens) == [t[0]] + Join(shorter);
      assert Join(tokens)[1..] == Join(shorter);
      SplitJoin(shorter);
      assert Join(tokens)[0] == t[0] != Space;
      assert tokens == [[t[0]] + t[1..]] + tokens[1..];
    }
  }

  /** A space-free token splits to itself. */
  lemma {:induction false} SplitToken(t: string)
    requires NoSpace(t)
    ensures Split(t) == [t]
    decreases |t|
  {
    if t != [] {
      SplitToken(t[1..]);
      assert t == [t[0]] + t[1..];
    }
  }
}
