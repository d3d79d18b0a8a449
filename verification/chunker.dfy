/** Reply shaping in `process_message` (main.py): a sanitized reply longer
    than 300 characters is cut, greedily and at word boundaries, into
    several SMS bodies. */
module Chunker {

  import opened Text

  /** The length above which a reply is split. */
  const Limit: nat := 300

  /** The split loop, from the given word on, with `current` the message
      built so far; yields the bodies handed to the sender, in order. */
  function Greedy(words: seq<string>, current: string): (chunks: seq<string>)
    decreases |words|
  {
    if words == [] then
      if Strip(current) != [] then [Strip(current)] else []
    else
      var w := words[0];
      if |current| + |w| + 1 > Limit then [Strip(current)] + Greedy(words[1..], w + " ")
      else Greedy(words[1..], current + w + " ")
  }

  /** The bodies sent for a sanitized reply. */
  function Chunks(reply: string): (chunks: seq<string>)
  {
    if |reply| > Limit then Greedy(Words(reply), "") else [reply]
  }

  // ---------------------------------------------------------------------
  // Proof vocabulary

  predicate AllWords(ws: seq<string>) {
    forall i :: 0 <= i < |ws| ==> IsWord(ws[i])
  }

  /** The text of `current_message` after the words `g` were added to it:
      each word followed by one space. */
  function Pending(g: seq<string>): string
  {
    if g == [] then [] else Join(g, " ") + " "
  }

  /** The chunks that are not empty. */
  function NonEmpty(cs: seq<string>): seq<string>
  {
    if cs == [] then []
    else (if cs[0] == [] then [] else [cs[0]]) + NonEmpty(cs[1..])
  }

  lemma {:induction false} NonEmptyCons(c: string, cs: seq<string>)
    ensures NonEmpty([c] + cs) == (if c == [] then [] else [c]) + NonEmpty(cs)
  {
    assert ([c] + cs)[1..] == cs;
  }

  lemma {:induction false} PendingAppend(g: seq<string>, w: string)
    ensures Pending(g + [w]) == Pending(g) + w + " "
  {
    if g == [] {
      assert [] + [w] == [w];
    } else {
      JoinAppend(g, [w], " ");
    }
  }

  lemma {:induction false} StripPending(g: seq<string>)
    requires AllWords(g)
    ensures Strip(Pending(g)) == Join(g, " ")
  {
    if g == [] {
      StripTrimmed([]);
    } else {
      JoinWordsTrimmed(g);
      StripTrailingSpace(Join(g, " "));
    }
  }

  lemma {:induction false} JoinNonEmpty(ws: seq<string>)
    requires AllWords(ws) && ws != []
    ensures Join(ws, " ") != []
  {
    JoinWordsTrimmed(ws);
  }

  lemma {:induction false} AllWordsSplit(g: seq<string>, words: seq<string>)
    requires AllWords(g) && AllWords(words) && words != []
    ensures AllWords([words[0]]) && AllWords(words[1..]) && AllWords(g + [words[0]])
    ensures g + [words[0]] + words[1..] == g + words
    ensures [words[0]] + words[1..] == words
  {
    assert g + [words[0]] + words[1..] == g + ([words[0]] + words[1..]);
  }

  /** The three ways one turn of the loop can go, in terms of the words
      added to the pending message. */
  lemma {:induction false} GreedyEnd(g: seq<string>)
    requires AllWords(g)
    ensures Greedy([], Pending(g)) == if g == [] then [] else [Join(g, " ")]
  {
    StripPending(g);
    if g != [] {
      JoinNonEmpty(g);
    }
  }

  lemma {:induction false} GreedyFlush(g: seq<string>, words: seq<string>)
    requires AllWords(g) && AllWords(words) && words != []
    requires |Pending(g)| + |words[0]| + 1 > Limit
    ensures Greedy(words, Pending(g)) == [Join(g, " ")] + Greedy(words[1..], Pending([words[0]]))
  {
    StripPending(g);
    assert Pending([words[0]]) == words[0] + " ";
  }

  lemma {:induction false} GreedyAdd(g: seq<string>, words: seq<string>)
    requires words != []
    requires |Pending(g)| + |words[0]| + 1 <= Limit
    ensures Greedy(words, Pending(g)) == Greedy(words[1..], Pending(g + [words[0]]))
    ensures |Pending(g + [words[0]])| <= Limit
  {
    PendingAppend(g, words[0]);
  }

  // ---------------------------------------------------------------------
  // Content: no word is lost, split or reordered

  lemma {:induction false} GreedyJoin(g: seq<string>, words: seq<string>)
    requires AllWords(g) && AllWords(words)
    ensures Join(NonEmpty(Greedy(words, Pending(g))), " ") == Join(g + words, " ")
    decreases |words|
  {
    if words == [] {
      GreedyEnd(g);
      assert g + words == g;
    } else {
      var w := words[0];
      var rest := words[1..];
      AllWordsSplit(g, words);
      if |Pending(g)| + |w| + 1 > Limit {
        GreedyFlush(g, words);
        GreedyJoin([w], rest);
        var tail := Greedy(rest, Pending([w]));
        NonEmptyCons(Join(g, " "), tail);
        if g == [] {
          assert NonEmpty(Greedy(words, Pending(g))) == NonEmpty(tail);
          assert g + words == [w] + rest;
        } else {
          JoinNonEmpty(g);
          JoinNonEmpty(words);
          assert NonEmpty(tail) != [];
          JoinAppend([Join(g, " ")], NonEmpty(tail), " ");
          JoinAppend(g, words, " ");
        }
      } else {
        GreedyAdd(g, words);
        GreedyJoin(g + [w], rest);
      }
    }
  }

  // ---------------------------------------------------------------------
  // Length: under the limit unless a lone over-long word

  lemma {:induction false} GreedyBound(g: seq<string>, words: seq<string>)
    requires AllWords(g) && AllWords(words)
    requires |g| <= 1 || |Pending(g)| <= Limit
    ensures forall c :: c in Greedy(words, Pending(g)) ==> |c| < Limit || c in g + words
    decreases |words|
  {
    if g != [] {
      assert |Join(g, " ")| + 1 == |Pending(g)|;
      if |g| == 1 {
        assert Join(g, " ") == g[0];
      }
    }
    if words == [] {
      GreedyEnd(g);
    } else {
      var w := words[0];
      var rest := words[1..];
      AllWordsSplit(g, words);
      if |Pending(g)| + |w| + 1 > Limit {
        GreedyFlush(g, words);
        GreedyBound([w], rest);
      } else {
        GreedyAdd(g, words);
        GreedyBound(g + [w], rest);
      }
    }
  }

  // ---------------------------------------------------------------------
  // Empty chunks

  lemma {:induction false} GreedyNoEmpty(g: seq<string>, words: seq<string>)
    requires AllWords(g) && AllWords(words) && g != []
    ensures [] !in Greedy(words, Pending(g))
    decreases |words|
  {
    JoinNonEmpty(g);
    if words == [] {
      GreedyEnd(g);
    } else {
      var w := words[0];
      var rest := words[1..];
      AllWordsSplit(g, words);
      if |Pending(g)| + |w| + 1 > Limit {
        GreedyFlush(g, words);
        GreedyNoEmpty([w], rest);
      } else {
        GreedyAdd(g, words);
        GreedyNoEmpty(g + [w], rest);
      }
    }
  }

  lemma {:induction false} GreedyFromEmpty(words: seq<string>)
    requires AllWords(words)
    ensures var cs := Greedy(words, "");
            && (words == [] ==> cs == [])
            && forall i :: 0 <= i < |cs| ==>
                 (cs[i] == [] <==> i == 0 && words != [] && |words[0]| >= Limit)
  {
    var cs := Greedy(words, "");
    if words == [] {
      StripTrimmed([]);
    } else {
      var w := words[0];
      var rest := words[1..];
      AllWordsSplit([], words);
      assert Pending([w]) == w + " ";
      GreedyNoEmpty([w], rest);
      var tail := Greedy(rest, w + " ");
      if |w| + 1 > Limit {
        StripTrimmed([]);
        assert cs == [[]] + tail;
        forall i | 0 <= i < |cs|
          ensures cs[i] == [] <==> i == 0
        {
          if i > 0 {
            assert cs[i] == tail[i - 1];
            assert tail[i - 1] in tail;
          }
        }
      } else {
        assert "" + w + " " == w + " ";
        assert cs == tail;
      }
    }
  }

  // ---------------------------------------------------------------------
  // The properties of `Chunks`

  /** A reply of at most 300 characters is sent as one unchanged message.
      A longer one is sent as chunks that, leaving out empty ones and
      joined with single spaces, give back the reply's words joined with
      single spaces: nothing is lost, split or reordered. */
  lemma {:induction false} ChunksContent(reply: string)
    ensures |reply| <= Limit ==> Chunks(reply) == [reply]
    ensures |reply| > Limit ==>
            Join(NonEmpty(Chunks(reply)), " ") == Join(Words(reply), " ")
  {
    if |reply| > Limit {
      WordsAreWords(reply);
      assert Pending([]) == "";
      GreedyJoin([], Words(reply));
      assert [] + Words(reply) == Words(reply);
    }
  }

  /** Every chunk of a long reply is shorter than 300 characters, unless it
      is one of the reply's words on its own. */
  lemma {:induction false} ChunksBound(reply: string)
    ensures |reply| > Limit ==>
            forall i :: 0 <= i < |Chunks(reply)| ==>
              |Chunks(reply)[i]| < Limit || Chunks(reply)[i] in Words(reply)
  {
    if |reply| > Limit {
      WordsAreWords(reply);
      assert Pending([]) == "";
      GreedyBound([], Words(reply));
      assert [] + Words(reply) == Words(reply);
    }
  }

  /** A long reply yields an empty chunk only as its first chunk, and
      exactly when its first word alone has 300 or more characters; a long
      reply that is all whitespace sends nothing. */
  lemma {:induction false} ChunksEmpty(reply: string)
    ensures |reply| > Limit ==>
            && (Words(reply) == [] ==> Chunks(reply) == [])
            && forall i :: 0 <= i < |Chunks(reply)| ==>
                 (Chunks(reply)[i] == [] <==>
                  i == 0 && Words(reply) != [] && |Words(reply)[0]| >= Limit)
  {
    if |reply| > Limit {
      var ws := Words(reply);
      WordsAreWords(reply);
      assert Chunks(reply) == Greedy(ws, "");
      GreedyFromEmpty(ws);
    }
  }
}
