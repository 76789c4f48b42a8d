/**
 * The grouping both variants apply to their argument tokens: consecutive
 * groups of three from the front; a last group of one or two tokens is the
 * "not enough arguments" tail, after which nothing is read.
 */
module Grouping {

  datatype Group = Triple(first: string, second: string, third: string) | Tail(rest: seq<string>)

  function Groups(tokens: seq<string>): (gs: seq<Group>)
    decreases |tokens|
  {
    if |tokens| == 0 then []
    else if |tokens| < 3 then [Tail(tokens)]
    else [Triple(tokens[0], tokens[1], tokens[2])] + Groups(tokens[3..])
  }

  /** The tokens a group was made of. */
  function GroupTokens(g: Group): seq<string> {
    match g
    case Triple(a, b, c) => [a, b, c]
    case Tail(rest) => rest
  }

  function Ungroup(gs: seq<Group>): seq<string>
    decreases |gs|
  {
    if |gs| == 0 then [] else GroupTokens(gs[0]) + Ungroup(gs[1..])
  }

  /** Grouping loses, duplicates and reorders no token. */
  lemma {:induction false} UngroupGroups(tokens: seq<string>)
    ensures Ungroup(Groups(tokens)) == tokens
    decreases |tokens|
  {
    if |tokens| >= 3 {
      var gs := Groups(tokens);
      assert gs[1..] == Groups(tokens[3..]);
      UngroupGroups(tokens[3..]);
      assert tokens == [tokens[0], tokens[1], tokens[2]] + tokens[3..];
    } else if |tokens| > 0 {
      assert Groups(tokens)[1..] == [];
    }
  }

  /**
   * A prefix whose length is a multiple of three is grouped on its own: the
   * groups of the whole are the groups of the prefix followed by those of
   * the rest.
   */
  lemma {:induction false} GroupsAppend(t1: seq<string>, t2: seq<string>)
    requires |t1| % 3 == 0
    ensures Groups(t1 + t2) == Groups(t1) + Groups(t2)
    decreases |t1|
  {
    if |t1| == 0 {
      assert t1 + t2 == t2;
    } else {
      var t := t1 + t2;
      assert t[..3] == t1[..3] && t[3..] == t1[3..] + t2;
      GroupsAppend(t1[3..], t2);
    }
  }

  /** Groups of a prefix ending on a group boundary, extended by one full group. */
  lemma GroupsExtend(tokens: seq<string>, j: nat)
    requires j % 3 == 0 && j + 3 <= |tokens|
    ensures Groups(tokens[..j + 3]) == Groups(tokens[..j]) + [Triple(tokens[j], tokens[j + 1], tokens[j + 2])]
  {
    assert tokens[..j + 3] == tokens[..j] + tokens[j..j + 3];
    GroupsAppend(tokens[..j], tokens[j..j + 3]);
    assert tokens[j..j + 3][3..] == [];
  }

  /** Groups of a prefix ending on a group boundary, followed by a short tail. */
  lemma GroupsFinish(tokens: seq<string>, j: nat)
    requires j % 3 == 0 && j < |tokens| < j + 3
    ensures Groups(tokens) == Groups(tokens[..j]) + [Tail(tokens[j..])]
  {
    assert tokens == tokens[..j] + tokens[j..];
    GroupsAppend(tokens[..j], tokens[j..]);
  }

  /** One group per started three tokens. */
  lemma {:induction false} GroupsLength(tokens: seq<string>)
    ensures |Groups(tokens)| == (|tokens| + 2) / 3
    decreases |tokens|
  {
    if |tokens| >= 3 {
      GroupsLength(tokens[3..]);
    }
  }

  /** Full group g is tokens 3g, 3g+1, 3g+2. */
  lemma {:induction false} GroupsTriple(tokens: seq<string>, g: nat)
    requires g < |tokens| / 3
    ensures |Groups(tokens)| > g
    ensures Groups(tokens)[g] == Triple(tokens[3 * g], tokens[3 * g + 1], tokens[3 * g + 2])
    decreases g
  {
    var rest := tokens[3..];
    if g > 0 {
      GroupsTriple(rest, g - 1);
      assert Groups(tokens)[g] == Groups(rest)[g - 1];
      assert rest[3 * (g - 1)] == tokens[3 * g];
    }
  }

  /** A remainder of one or two tokens forms the last, short group. */
  lemma {:induction false} GroupsTail(tokens: seq<string>)
    requires |tokens| % 3 != 0
    ensures |Groups(tokens)| > |tokens| / 3
    ensures Groups(tokens)[|tokens| / 3] == Tail(tokens[3 * (|tokens| / 3)..])
    decreases |tokens|
  {
    if |tokens| >= 3 {
      var rest := tokens[3..];
      GroupsTail(rest);
      assert Groups(tokens)[|tokens| / 3] == Groups(rest)[|rest| / 3];
      assert rest[3 * (|rest| / 3)..] == tokens[3 * (|tokens| / 3)..];
    }
  }

  /**
   * The shape of the grouping: one group per started three tokens; group
   * `g` of the full ones is tokens 3g, 3g+1, 3g+2; a remainder of one or two
   * tokens forms the last, short group.
   */
  lemma GroupsShape(tokens: seq<string>)
    ensures |Groups(tokens)| == (|tokens| + 2) / 3
    ensures forall g :: 0 <= g < |tokens| / 3 ==>
              Groups(tokens)[g] == Triple(tokens[3 * g], tokens[3 * g + 1], tokens[3 * g + 2])
    ensures |tokens| % 3 != 0 ==> Groups(tokens)[|tokens| / 3] == Tail(tokens[3 * (|tokens| / 3)..])
  {
    GroupsLength(tokens);
    forall g | 0 <= g < |tokens| / 3
      ensures Groups(tokens)[g] == Triple(tokens[3 * g], tokens[3 * g + 1], tokens[3 * g + 2])
    {
      GroupsTriple(tokens, g);
    }
    if |tokens| % 3 != 0 {
      GroupsTail(tokens);
    }
  }
}
