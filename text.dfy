/** Joining the parts of a detail page's summary line with " | ", and reading them back. */
module Text {

  const Separator: string := " | "

  /** Concatenates `parts`, with the separator between each neighbouring pair. */
  function Join(parts: seq<string>): string
  {
    if |parts| == 0 then ""
    else if |parts| == 1 then parts[0]
    else parts[0] + Separator + Join(parts[1..])
  }

  predicate NoBar(s: string) {
    forall i :: 0 <= i < |s| ==> s[i] != '|'
  }

  /**
   * Cuts `s` at every occurrence of the separator, scanning from the left;
   * the inverse of Join for parts that contain no '|'.
   */
  function Split(s: string): (r: seq<string>)
    ensures |r| >= 1
    decreases |s|
  {
    if |s| < 3 then [s]
    else if s[..3] == Separator then [""] + Split(s[3..])
    else
      var rest := Split(s[1..]);
      [[s[0]] + rest[0]] + rest[1..]
  }

  lemma {:induction false} SplitNoBar(p: string)
    requires NoBar(p)
    ensures Split(p) == [p]
    decreases |p|
  {
    if |p| >= 3 {
      assert p[..3] != Separator by { assert p[1] != '|'; }
      assert NoBar(p[1..]) by {
        forall i | 0 <= i < |p[1..]| ensures p[1..][i] != '|' { assert p[1..][i] == p[i + 1]; }
      }
      SplitNoBar(p[1..]);
      assert [p[0]] + p[1..] == p;
    }
  }

  /** Splitting a part followed by the separator peels off exactly that part. */
  lemma {:induction false} SplitCons(p: string, rest: string)
    requires NoBar(p)
    ensures Split(p + Separator + rest) == [p] + Split(rest)
    decreases |p|
  {
    var s := p + Separator + rest;
    if p == [] {
      assert s[..3] == Separator;
      assert s[3..] == rest;
    } else {
      assert |s| >= 3;
      assert s[..3] != Separator by {
        if |p| >= 2 { assert s[1] == p[1]; } else { assert s[1] == ' '; }
      }
      assert NoBar(p[1..]) by {
        forall i | 0 <= i < |p[1..]| ensures p[1..][i] != '|' { assert p[1..][i] == p[i + 1]; }
      }
      assert s[1..] == p[1..] + Separator + rest;
      SplitCons(p[1..], rest);
      assert [s[0]] + p[1..] == p;
    }
  }

  /** Join and Split are inverse when no part contains '|'. */
  lemma {:induction false} SplitJoin(parts: seq<string>)
    requires |parts| >= 1
    requires forall i :: 0 <= i < |parts| ==> NoBar(parts[i])
    ensures Split(Join(parts)) == parts
  {
    if |parts| == 1 {
      SplitNoBar(parts[0]);
    } else {
      SplitCons(parts[0], Join(parts[1..]));
      SplitJoin(parts[1..]);
      assert [parts[0]] + parts[1..] == parts;
    }
  }

  /** Appending a part adds the separator and that part at the end. */
  lemma {:induction false} JoinSnoc(parts: seq<string>, p: string)
    requires |parts| >= 1
    ensures Join(parts + [p]) == Join(parts) + Separator + p
  {
    if |parts| == 1 {
      assert parts + [p] == [parts[0], p];
    } else {
      assert (parts + [p])[1..] == parts[1..] + [p];
      JoinSnoc(parts[1..], p);
    }
  }
}
