/** Python's `text.split()`: the maximal runs of characters that are no white space. */
module Words {
  import opened Characters

  /** The characters from `i` to `j` are such a run. */
  predicate IsRun(s: string, i: int, j: int) {
    && 0 <= i < j <= |s| && (forall k | i <= k < j :: !IsSpace(s[k]))
    && (i == 0 || IsSpace(s[i - 1])) && (j == |s| || IsSpace(s[j]))
  }

  /** How many characters there are in front of the first white space. */
  function WordRun(s: string): (n: nat)
    ensures n <= |s| && (forall k | 0 <= k < n :: !IsSpace(s[k])) && (n < |s| ==> IsSpace(s[n]))
  {
    if s == "" || IsSpace(s[0]) then 0 else 1 + WordRun(s[1..])
  }

  function Split(s: string): seq<string>
    decreases |s|
  {
    if s == "" then []
    else if IsSpace(s[0]) then Split(s[1..])
    else [s[..WordRun(s)]] + Split(s[WordRun(s)..])
  }

  /** `" ".join(words)` */
  function Joined(words: seq<string>): string {
    if |words| == 0 then "" else if |words| == 1 then words[0] else words[0] + (" " + Joined(words[1..]))
  }

  datatype Range = Range(from: nat, to: nat)

  /** The ranges are the runs of `s` from some position on, all of them, from left to right. */
  ghost predicate AreRuns(s: string, from: nat, ranges: seq<Range>) {
    && (forall k | 0 <= k < |ranges| :: IsRun(s, ranges[k].from, ranges[k].to) && ranges[k].from >= from)
    && (forall k, l | 0 <= k < l < |ranges| :: ranges[k].to < ranges[l].from)
    && forall i: nat, j: nat | IsRun(s, i, j) && i >= from :: Range(i, j) in ranges
  }

  lemma WordIsRun(s: string, n: nat) returns (m: nat)
    requires n < |s| && !IsSpace(s[n]) && (n == 0 || IsSpace(s[n - 1]))
    ensures m == n + WordRun(s[n..]) && IsRun(s, n, m)
    ensures s[n..][..m - n] == s[n..m] && s[n..][m - n..] == s[m..]
  {
    m := n + WordRun(s[n..]);
    forall k | n <= k < m ensures !IsSpace(s[k]) {
      assert s[n..][k - n] == s[k];
    }
    assert m < |s| ==> s[n..][m - n] == s[m];
  }

  lemma RunsBehindWord(s: string, n: nat, m: nat, later: seq<Range>)
    requires IsRun(s, n, m) && AreRuns(s, m, later)
    ensures AreRuns(s, n, [Range(n, m)] + later)
  {
    var ranges := [Range(n, m)] + later;
    forall k | 0 <= k < |later| ensures m < later[k].from {
      assert IsRun(s, later[k].from, later[k].to);
    }
    forall i: nat, j: nat | IsRun(s, i, j) && i >= n ensures Range(i, j) in ranges {
      if i < m {
        RunsMeet(s, n, m, i, j);
        assert ranges[0] == Range(i, j);
      }
    }
  }

  lemma RunsMeet(s: string, i: nat, j: nat, i': nat, j': nat)
    requires IsRun(s, i, j) && IsRun(s, i', j') && i <= i' < j
    ensures i == i' && j == j'
  {
  }

  lemma RunsBehindSpace(s: string, n: nat, later: seq<Range>)
    requires n < |s| && IsSpace(s[n]) && AreRuns(s, n + 1, later)
    ensures AreRuns(s, n, later)
  {
  }

  lemma NoRunsLeft(s: string)
    ensures AreRuns(s, |s|, [])
  {
  }

  /** Splitting gives the runs, in order. */
  lemma {:induction false} SplitIsRuns(s: string, n: nat) returns (ranges: seq<Range>)
    requires n <= |s| && (n == 0 || n == |s| || IsSpace(s[n - 1]) || IsSpace(s[n]))
    ensures AreRuns(s, n, ranges) && |Split(s[n..])| == |ranges|
    ensures forall k | 0 <= k < |ranges| :: Split(s[n..])[k] == s[ranges[k].from..ranges[k].to]
    decreases |s| - n
  {
    hide IsSpace, WordRun, AreRuns, IsRun;
    ranges := [];
    if n == |s| {
      NoRunsLeft(s);
    } else {
      if IsSpace(s[n]) {
        assert s[n..][1..] == s[n + 1..];
        ranges := SplitIsRuns(s, n + 1);
        RunsBehindSpace(s, n, ranges);
      } else {
        var m := WordIsRun(s, n);
        var later := SplitIsRuns(s, m);
        RunsBehindWord(s, n, m, later);
        assert Split(s[n..]) == [s[n..m]] + Split(s[m..]);
        ranges := [Range(n, m)] + later;
      }
    }
  }

  predicate AreWords(words: seq<string>) {
    forall k | 0 <= k < |words| :: words[k] != "" && forall i | 0 <= i < |words[k]| :: !IsSpace(words[k][i])
  }

  lemma {:induction false} SplitAreWords(s: string)
    ensures AreWords(Split(s))
    decreases |s|
  {
    if s != "" {
      SplitAreWords(if IsSpace(s[0]) then s[1..] else s[WordRun(s)..]);
    }
  }

  lemma {:induction false} WordRunOf(w: string, x: string)
    requires (forall i | 0 <= i < |w| :: !IsSpace(w[i])) && (x == "" || IsSpace(x[0]))
    ensures WordRun(w + x) == |w|
  {
    if w == "" {
      assert w + x == x;
    } else {
      assert (w + x)[1..] == w[1..] + x;
      WordRunOf(w[1..], x);
    }
  }

  /** Joining and splitting again gives the words back ... */
  lemma {:induction false} SplitOfJoined(words: seq<string>)
    requires AreWords(words)
    ensures Split(Joined(words)) == words
  {
    if words != [] {
      hide WordRun;
      var w := words[0];
      var x := if |words| == 1 then "" else " " + Joined(words[1..]);
      assert Joined(words) == w + x;
      WordRunOf(w, x);
      assert (w + x)[..|w|] == w && (w + x)[|w|..] == x;
      if |words| > 1 {
        SplitOfJoined(words[1..]);
        assert x[1..] == Joined(words[1..]);
      }
      assert Split(x) == words[1..];
      assert Split(w + x) == [w] + Split(x);
    }
  }

  /** ... so texts of the same words, and only those, are the same once joined. */
  lemma JoinedAlikeIff(a: string, b: string)
    ensures Joined(Split(a)) == Joined(Split(b)) <==> Split(a) == Split(b)
  {
    hide Split, Joined;
    SplitAreWords(a);
    SplitAreWords(b);
    SplitOfJoined(Split(a));
    SplitOfJoined(Split(b));
  }
}
