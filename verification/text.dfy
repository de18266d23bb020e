/** Character-sequence facts shared by the splitters: joining fields with a
    separator, the trailing run of a separator, and collapsing separator runs. */
module Text {

  /** The fields laid end to end with one `sep` between neighbours. */
  function Join(fields: seq<string>, sep: char): string
    decreases |fields|
  {
    if |fields| == 0 then ""
    else if |fields| == 1 then fields[0]
    else fields[0] + [sep] + Join(fields[1..], sep)
  }

  /** Length of the longest suffix of `s` made only of `c`. */
  function TrailingRun(s: string, c: char): (n: nat)
    ensures n <= |s|
    ensures forall i :: |s| - n <= i < |s| ==> s[i] == c
    ensures n < |s| ==> s[|s| - n - 1] != c
    decreases |s|
  {
    if |s| == 0 || s[|s| - 1] != c then 0 else 1 + TrailingRun(s[..|s| - 1], c)
  }

  /** The trailing run is the only length with the two defining properties. */
  lemma TrailingRunUnique(s: string, c: char, n: nat)
    requires n <= |s|
    requires forall i :: |s| - n <= i < |s| ==> s[i] == c
    requires n < |s| ==> s[|s| - n - 1] != c
    ensures TrailingRun(s, c) == n
  {
  }

  /** Dropping the first character shortens the trailing run only when the
      whole string is that run. */
  lemma TrailingRunDropFirst(s: string, c: char)
    requires |s| > 0
    ensures TrailingRun(s[1..], c)
            == if TrailingRun(s, c) == |s| then |s| - 1 else TrailingRun(s, c)
  {
    var t := TrailingRun(s, c);
    var n := if t == |s| then |s| - 1 else t;
    assert forall i :: |s| - 1 - n <= i < |s| - 1 ==> s[1..][i] == s[i + 1];
    TrailingRunUnique(s[1..], c, n);
  }

  /** Everything up to a character other than `c` can be cut without
      changing the trailing run. */
  lemma TrailingRunAfter(s: string, c: char, k: nat)
    requires k < |s| && s[k] != c
    ensures TrailingRun(s[k + 1..], c) == TrailingRun(s, c)
  {
    var t := TrailingRun(s, c);
    var s' := s[k + 1..];
    assert t <= |s'|;
    assert forall i :: |s'| - t <= i < |s'| ==> s'[i] == s[i + k + 1];
    TrailingRunUnique(s', c, t);
  }

  /** `s` without its leading run of `c`. */
  function DropRun(s: string, c: char): (r: string)
    ensures |r| <= |s|
    ensures r == s[|s| - |r|..]
    ensures forall i :: 0 <= i < |s| - |r| ==> s[i] == c
    ensures |r| > 0 ==> r[0] != c
    decreases |s|
  {
    if |s| > 0 && s[0] == c then DropRun(s[1..], c) else s
  }

  /** `s` with every maximal run of `c` replaced by a single `c`. */
  function Collapse(s: string, c: char): (r: string)
    ensures |r| <= |s|
    ensures |r| == 0 <==> |s| == 0
    ensures |r| > 0 ==> r[0] == s[0]
    ensures forall i :: 0 <= i < |r| - 1 && r[i] == c ==> r[i + 1] != c
    decreases |s|
  {
    if |s| == 0 then ""
    else if s[0] == c then [c] + Collapse(DropRun(s[1..], c), c)
    else [s[0]] + Collapse(s[1..], c)
  }

  /** Joining is injective on non-empty field lists whose fields avoid the
      separator: such a list is recovered uniquely from its join. */
  lemma {:induction false} JoinInjective(a: seq<string>, b: seq<string>, sep: char)
    requires |a| >= 1 && |b| >= 1
    requires forall i :: 0 <= i < |a| ==> sep !in a[i]
    requires forall i :: 0 <= i < |b| ==> sep !in b[i]
    requires Join(a, sep) == Join(b, sep)
    ensures a == b
    decreases |a|
  {
    var ja, jb := Join(a, sep), Join(b, sep);
    if |a| > 1 && |b| > 1 {
      assert ja[|a[0]|] == sep && jb[|b[0]|] == sep;
      assert forall k :: 0 <= k < |a[0]| ==> ja[k] == a[0][k];
      assert forall k :: 0 <= k < |b[0]| ==> jb[k] == b[0][k];
      assert a[0] == ja[..|a[0]|] == jb[..|b[0]|] == b[0];
      assert Join(a[1..], sep) == ja[|a[0]| + 1..];
      assert Join(b[1..], sep) == jb[|b[0]| + 1..];
      JoinInjective(a[1..], b[1..], sep);
      assert a == [a[0]] + a[1..];
      assert b == [b[0]] + b[1..];
    }
  }
}
