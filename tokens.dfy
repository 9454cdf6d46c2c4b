/**
 * Class-name tokens: a breakpoint label is split on single spaces, as
 * JavaScript's `label.split(' ')` does, and the empty pieces are dropped.
 */
module ClassTokens {

  /** `s.split(' ')`: every maximal run between spaces, empty runs included. */
  function Split(s: string): (pieces: seq<string>)
    ensures |pieces| >= 1
    ensures forall p :: p in pieces ==> ' ' !in p
  {
    if s == [] then [""]
    else
      var rest := Split(s[1..]);
      if s[0] == ' ' then [""] + rest
      else [[s[0]] + rest[0]] + rest[1..]
  }

  /** `pieces.join(' ')`, the inverse of `Split`. */
  function Join(pieces: seq<string>): string
    requires |pieces| >= 1
  {
    if |pieces| == 1 then pieces[0] else pieces[0] + " " + Join(pieces[1..])
  }

  /** The non-empty pieces of a sequence, as a set. */
  function NonEmpty(pieces: seq<string>): set<string>
  {
    set p | p in pieces && p != ""
  }

  /** The class names a label adds or removes. */
  function Tokens(className: string): set<string>
  {
    NonEmpty(Split(className))
  }

  /** Every token is a non-empty class name without a space. */
  lemma TokensAreNames(className: string)
    ensures forall c :: c in Tokens(className) ==> c != "" && ' ' !in c
  {
  }

  lemma {:induction false} SplitNoSpace(w: string)
    requires ' ' !in w
    ensures Split(w) == [w]
  {
    if w != [] {
      SplitNoSpace(w[1..]);
      assert [w[0]] + w[1..] == w;
    }
  }

  /** Splitting at a space splits the two sides independently. */
  lemma {:induction false} SplitConcat(a: string, b: string)
    ensures Split(a + " " + b) == Split(a) + Split(b)
  {
    if a == [] {
      assert a + " " + b == [' '] + b;
      assert (a + " " + b)[1..] == b;
    } else {
      var s := a + " " + b;
      assert s[0] == a[0];
      assert s[1..] == a[1..] + " " + b;
      SplitConcat(a[1..], b);
    }
  }

  /** Joining the pieces of a split gives back the label. */
  lemma {:induction false} SplitJoin(s: string)
    ensures Join(Split(s)) == s
  {
    if s != [] {
      var rest := Split(s[1..]);
      SplitJoin(s[1..]);
      if s[0] == ' ' {
        assert ([""] + rest)[1..] == rest;
        assert s == " " + s[1..];
      } else {
        var pieces := [[s[0]] + rest[0]] + rest[1..];
        assert pieces[1..] == rest[1..];
        if |rest| == 1 {
          assert s == [s[0]] + s[1..];
        } else {
          assert Join(rest) == rest[0] + " " + Join(rest[1..]);
          assert s == [s[0]] + s[1..];
        }
      }
    }
  }

  /** Splitting space-free pieces joined by spaces gives back the pieces. */
  lemma {:induction false} JoinSplit(pieces: seq<string>)
    requires |pieces| >= 1
    requires forall p :: p in pieces ==> ' ' !in p
    ensures Split(Join(pieces)) == pieces
  {
    SplitNoSpace(pieces[0]);
    if |pieces| > 1 {
      JoinSplit(pieces[1..]);
      SplitConcat(pieces[0], Join(pieces[1..]));
      assert pieces == [pieces[0]] + pieces[1..];
    }
  }

  /** A single class name is its own only token. */
  lemma TokensOfName(w: string)
    requires w != "" && ' ' !in w
    ensures Tokens(w) == {w}
  {
    SplitNoSpace(w);
  }

  /** A multi-word label contributes the tokens of each word. */
  lemma TokensConcat(a: string, b: string)
    ensures Tokens(a + " " + b) == Tokens(a) + Tokens(b)
  {
    SplitConcat(a, b);
  }
}
