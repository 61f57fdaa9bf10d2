/** Joining words with single spaces, as `" ".join(words)` does. */
module Text {

  /** The words of `ws` with one space between neighbours. */
  function Join(ws: seq<string>): string
  {
    if |ws| == 0 then ""
    else if |ws| == 1 then ws[0]
    else ws[0] + " " + Join(ws[1..])
  }

  /** Length of `Join(ws)` plus one: each word counts its length and one separator. */
  function Weight(ws: seq<string>): nat
  {
    if ws == [] then 0 else |ws[0]| + 1 + Weight(ws[1..])
  }

  lemma {:induction false} WeightConcat(a: seq<string>, b: seq<string>)
    ensures Weight(a + b) == Weight(a) + Weight(b)
  {
    if a == [] {
      assert a + b == b;
    } else {
      assert (a + b)[1..] == a[1..] + b;
      WeightConcat(a[1..], b);
    }
  }

  /** A non-empty word list joins to a string one shorter than its weight. */
  lemma {:induction false} JoinLength(ws: seq<string>)
    requires ws != []
    ensures |Join(ws)| + 1 == Weight(ws)
  {
    if |ws| > 1 {
      JoinLength(ws[1..]);
    }
  }
}
