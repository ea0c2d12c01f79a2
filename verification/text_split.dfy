/**
 * `String.prototype.split` with a one-character separator: the pieces
 * between consecutive separators, so that `n` separators give `n + 1`
 * pieces and the empty string gives one empty piece.
 */
module TextSplit {

  /** How many times `c` occurs in `s`. */
  function Occurrences(s: string, c: char): (n: nat) {
    if s == [] then 0 else (if s[0] == c then 1 else 0) + Occurrences(s[1..], c)
  }

  /** The pieces of `s` between occurrences of `sep`. */
  function Split(s: string, sep: char): (parts: seq<string>)
    ensures |parts| == Occurrences(s, sep) + 1
    ensures forall i :: 0 <= i < |parts| ==> sep !in parts[i]
  {
    if s == [] then [[]]
    else
      var rest := Split(s[1..], sep);
      if s[0] == sep then [[]] + rest else [[s[0]] + rest[0]] + rest[1..]
  }

  /** The pieces put back together with `sep` between them (`Array.prototype.join`). */
  function Join(parts: seq<string>, sep: char): (s: string)
    requires |parts| >= 1
  {
    if |parts| == 1 then parts[0] else parts[0] + [sep] + Join(parts[1..], sep)
  }

  /** Splitting loses nothing: joining the pieces gives the original text. */
  lemma {:induction false} JoinSplit(s: string, sep: char)
    ensures Join(Split(s, sep), sep) == s
  {
    if s != [] {
      var rest := Split(s[1..], sep);
      JoinSplit(s[1..], sep);
      if s[0] != sep && |rest| > 1 {
        assert rest == [rest[0]] + rest[1..];
      }
    }
  }

  /** Splitting a join of separator-free pieces gives those pieces back. */
  lemma {:induction false} SplitJoin(parts: seq<string>, sep: char)
    requires |parts| >= 1
    requires forall i :: 0 <= i < |parts| ==> sep !in parts[i]
    ensures Split(Join(parts, sep), sep) == parts
    decreases |parts|, |parts[0]|
  {
    if parts[0] == [] {
      if |parts| > 1 {
        SplitJoin(parts[1..], sep);
        assert Join(parts, sep) == [sep] + Join(parts[1..], sep);
        assert [sep] + Join(parts[1..], sep) != [];
      }
    } else {
      var shorter := [parts[0][1..]] + parts[1..];
      assert forall i :: 1 <= i < |shorter| ==> shorter[i] == parts[i];
      SplitJoin(shorter, sep);
      assert Join(parts, sep) == [parts[0][0]] + Join(shorter, sep) by {
        if |parts| > 1 {
          assert shorter[1..] == parts[1..];
        }
      }
      assert parts[0][0] != sep by {
        assert parts[0][0] in parts[0];
      }
      assert ([parts[0][0]] + Join(shorter, sep))[1..] == Join(shorter, sep);
      assert [parts[0][0]] + parts[0][1..] == parts[0];
    }
  }
}
