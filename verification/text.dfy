/** The two string operations the wire formats are built from:
    `String.prototype.split` and `Array.prototype.join` with a one-character separator. */
module Text {

  /** Number of occurrences of `d` in `s`. */
  function Occurrences(s: string, d: char): nat {
    if s == [] then 0 else (if s[0] == d then 1 else 0) + Occurrences(s[1..], d)
  }

  /** `parts.join(d)`: the parts with one `d` between neighbours; "" for no parts.
      When no part holds `d`, the result holds exactly one `d` per pair of neighbours
      and starts with the first part. */
  function Join(parts: seq<string>, d: char): (r: string)
    ensures |parts| >= 1 && (forall i :: 0 <= i < |parts| ==> d !in parts[i]) ==>
      Occurrences(r, d) == |parts| - 1
    ensures |parts| >= 1 ==> |parts[0]| <= |r| && r[..|parts[0]|] == parts[0]
  {
    if |parts| == 0 then ""
    else if |parts| == 1 then
      assert parts[0][..|parts[0]|] == parts[0];
      NoOccurrences(parts[0], d);
      parts[0]
    else
      var rest := Join(parts[1..], d);
      NoOccurrences(parts[0], d);
      OccurrencesAppend(parts[0], [d], d);
      OccurrencesAppend(parts[0] + [d], rest, d);
      assert (parts[0] + [d] + rest)[..|parts[0]|] == parts[0];
      parts[0] + [d] + rest
  }

  lemma {:induction false} NoOccurrences(s: string, d: char)
    ensures d !in s ==> Occurrences(s, d) == 0
  {
    if s != [] {
      assert forall c | c in s[1..] :: c in s;
      NoOccurrences(s[1..], d);
    }
  }

  lemma {:induction false} OccurrencesAppend(s: string, t: string, d: char)
    ensures Occurrences(s + t, d) == Occurrences(s, d) + Occurrences(t, d)
  {
    if s == [] {
      assert s + t == t;
    } else {
      assert (s + t)[0] == s[0] && (s + t)[1..] == s[1..] + t;
      OccurrencesAppend(s[1..], t, d);
    }
  }

  /** `s.split(d)`: the maximal `d`-free pieces of `s`, in order; "" splits into [""].
      There is always one piece more than there are separators, no piece holds the
      separator, and joining the pieces gives back `s`. */
  function Split(s: string, d: char): (parts: seq<string>)
    ensures |parts| == Occurrences(s, d) + 1
    ensures forall i :: 0 <= i < |parts| ==> d !in parts[i]
    ensures Join(parts, d) == s
    decreases |s|
  {
    if s == [] then [""]
    else
      var rest := Split(s[1..], d);
      if s[0] == d then
        assert Join([""] + rest, d) == [d] + Join(rest, d) by {
          assert ([""] + rest)[1..] == rest;
        }
        [""] + rest
      else
        var first := [s[0]] + rest[0];
        assert [s[0]] + s[1..] == s;
        if |rest| == 1 then
          [first]
        else
          assert Join([first] + rest[1..], d) == first + [d] + Join(rest[1..], d) by {
            assert ([first] + rest[1..])[1..] == rest[1..];
          }
          [first] + rest[1..]
  }

  /** A `d`-free string splits into itself alone. */
  lemma SplitFree(p: string, d: char)
    requires d !in p
    ensures Split(p, d) == [p]
  {
  }

  /** A `d`-free prefix followed by `d` becomes the first piece. */
  lemma {:induction false} SplitAfterFree(p: string, t: string, d: char)
    requires d !in p
    ensures Split(p + [d] + t, d) == [p] + Split(t, d)
  {
    var s := p + [d] + t;
    if p == [] {
      assert s[1..] == t;
    } else {
      assert s[1..] == p[1..] + [d] + t;
      assert forall c | c in p[1..] :: c in p;
      SplitAfterFree(p[1..], t, d);
      assert [p[0]] + p[1..] == p;
    }
  }

  /** Splitting undoes joining when no part holds the separator. */
  lemma {:induction false} SplitJoin(parts: seq<string>, d: char)
    requires |parts| >= 1
    requires forall i :: 0 <= i < |parts| ==> d !in parts[i]
    ensures Split(Join(parts, d), d) == parts
  {
    if |parts| == 1 {
      SplitFree(parts[0], d);
    } else {
      SplitJoin(parts[1..], d);
      SplitAfterFree(parts[0], Join(parts[1..], d), d);
      assert [parts[0]] + parts[1..] == parts;
    }
  }
}
