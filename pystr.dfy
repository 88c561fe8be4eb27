/** The few Python `str` and `list` operations the server is built from, with their
    Python semantics written out: `split` on a one-character separator, the first
    piece of a `split` on a longer one, `join`, `lstrip`, slicing `[1:-1]`, `[-1]`
    and `[-k:]`, and `bin`. */
module PyStr {

  /** `s.split(c)`: the pieces between the occurrences of `c`, empty ones included.
      The list is never empty, so `[0]` and `[-1]` are always defined. */
  function Split(s: string, c: char): (r: seq<string>)
    ensures |r| >= 1
    ensures forall i :: 0 <= i < |r| ==> c !in r[i]
    decreases |s|
  {
    if |s| == 0 then [""]
    else if s[0] == c then [""] + Split(s[1..], c)
    else
      var rest := Split(s[1..], c);
      [[s[0]] + rest[0]] + rest[1..]
  }

  /** `c.join(xs)` for a one-character separator; `""` for an empty list. */
  function Join(xs: seq<string>, c: char): string
  {
    if |xs| == 0 then ""
    else if |xs| == 1 then xs[0]
    else xs[0] + [c] + Join(xs[1..], c)
  }

  /** `xs[-1]`. */
  function Last<T>(xs: seq<T>): T
    requires |xs| >= 1
  {
    xs[|xs| - 1]
  }

  /** `xs[1:-1]`: empty when there are fewer than three elements. */
  function Middle<T>(xs: seq<T>): (r: seq<T>)
    ensures |r| == if |xs| <= 2 then 0 else |xs| - 2
    ensures forall i :: 0 <= i < |r| ==> r[i] == xs[i + 1]
  {
    if |xs| <= 2 then [] else xs[1..|xs| - 1]
  }

  predicate StartsWith(s: string, prefix: string)
  {
    |prefix| <= |s| && s[..|prefix|] == prefix
  }

  /** `sep` does not occur in `s` at any of the first `n` positions. */
  predicate NoneBefore(s: string, n: nat, sep: string)
    requires n <= |s|
  {
    forall j :: 0 <= j < n ==> !StartsWith(s[j..], sep)
  }

  /** `s.split(sep)[0]`: the text before the first occurrence of `sep`, or all of `s`. */
  function FirstPiece(s: string, sep: string): (r: string)
    requires |sep| > 0
    ensures |r| <= |s| && r == s[..|r|]
    ensures NoneBefore(s, |r|, sep)
    ensures |r| == |s| || StartsWith(s[|r|..], sep)
    decreases |s|
  {
    if |s| == 0 || StartsWith(s, sep) then ""
    else
      var rest := FirstPiece(s[1..], sep);
      assert forall j :: 1 <= j <= |s| ==> s[j..] == s[1..][j - 1..];
      [s[0]] + rest
  }

  /** `s.lstrip(c)`: removes every leading `c`, not just one. The result is what
      follows a run of `c` and does not itself start with `c`. */
  function LStrip(s: string, c: char): (r: string)
    ensures |r| <= |s| && s == seq(|s| - |r|, _ => c) + r
    ensures r == [] || r[0] != c
    decreases |s|
  {
    if |s| > 0 && s[0] == c then
      var r := LStrip(s[1..], c);
      assert s == [c] + s[1..];
      assert seq(|s| - |r|, _ => c) == [c] + seq(|s| - 1 - |r|, _ => c);
      r
    else s
  }

  /** `s[-k:]` for a positive `k`. */
  function TakeLast(s: string, k: nat): (r: string)
    requires k > 0
    ensures |r| == if |s| <= k then |s| else k
    ensures r == s[|s| - |r|..]
  {
    if |s| <= k then s else s[|s| - k..]
  }

  /** The character of one binary digit. */
  function DigitChar(b: nat): char
    requires b < 2
  {
    if b == 0 then '0' else '1'
  }

  /** `bin(n)[2:]`: the binary digits of `n`, most significant first, `"0"` for zero. */
  function BinDigits(n: nat): string
    decreases n
  {
    if n < 2 then [DigitChar(n)] else BinDigits(n / 2) + [DigitChar(n % 2)]
  }

  /** `bin(n)`. */
  function Bin(n: nat): string
  {
    "0b" + BinDigits(n)
  }

  /** `2 ** k`. */
  function Pow2(k: nat): (p: nat)
    ensures p >= 1
  {
    if k == 0 then 1 else 2 * Pow2(k - 1)
  }

  /** A number of at least `2^k` has more than `k` binary digits. */
  lemma {:induction false} BinDigitsLength(n: nat, k: nat)
    requires n >= Pow2(k)
    ensures |BinDigits(n)| > k
    decreases k
  {
    if k > 0 {
      BinDigitsLength(n / 2, k - 1);
    }
  }

  /** The third binary digit from the right is the bit of weight 4. */
  lemma ThirdLastDigit(n: nat)
    requires n >= 4
    ensures |BinDigits(n)| >= 3
    ensures BinDigits(n)[|BinDigits(n)| - 3] == DigitChar((n / 4) % 2)
  {
    var d2 := BinDigits(n / 4);
    assert BinDigits(n / 2) == d2 + [DigitChar((n / 2) % 2)];
    assert d2[|d2| - 1] == DigitChar((n / 4) % 2);
  }

  /** Splitting never loses text: joining the pieces gives the string back. */
  lemma {:induction false} JoinSplit(s: string, c: char)
    ensures Join(Split(s, c), c) == s
    decreases |s|
  {
    if |s| > 0 {
      JoinSplit(s[1..], c);
      var rest := Split(s[1..], c);
      if s[0] == c {
        assert Split(s, c) == [""] + rest;
        assert ([""] + rest)[1..] == rest;
      } else {
        var r := Split(s, c);
        assert r == [[s[0]] + rest[0]] + rest[1..];
        if |rest| > 1 {
          assert r[1..] == rest[1..];
          assert Join(rest, c) == rest[0] + [c] + Join(rest[1..], c);
        }
      }
    }
  }

  /** A string without the separator is one piece. */
  lemma {:induction false} SplitNoSep(s: string, c: char)
    requires c !in s
    ensures Split(s, c) == [s]
    decreases |s|
  {
    if |s| > 0 {
      SplitNoSep(s[1..], c);
      assert s[0] != c;
      assert [s[0]] + s[1..] == s;
    }
  }

  /** Splitting distributes over an occurrence of the separator. */
  lemma {:induction false} SplitAppend(a: string, b: string, c: char)
    ensures Split(a + [c] + b, c) == Split(a, c) + Split(b, c)
    decreases |a|
  {
    var s := a + [c] + b;
    if |a| == 0 {
      assert s == [c] + b;
      assert s[1..] == b;
    } else {
      assert s[0] == a[0];
      assert s[1..] == a[1..] + [c] + b;
      SplitAppend(a[1..], b, c);
      if a[0] != c {
        SplitAppendCons(a, b, c);
      }
    }
  }

  lemma SplitAppendCons(a: string, b: string, c: char)
    requires |a| > 0 && a[0] != c
    requires Split(a[1..] + [c] + b, c) == Split(a[1..], c) + Split(b, c)
    ensures Split(a + [c] + b, c) == Split(a, c) + Split(b, c)
  {
    var s := a + [c] + b;
    assert s[0] == a[0];
    assert s[1..] == a[1..] + [c] + b;
    GlueFirst(a[0], Split(a[1..], c), Split(b, c));
  }

  /** Gluing a character onto the first piece commutes with appending more pieces. */
  lemma GlueFirst(x: char, ra: seq<string>, rb: seq<string>)
    requires |ra| >= 1
    ensures [[x] + (ra + rb)[0]] + (ra + rb)[1..] == ([[x] + ra[0]] + ra[1..]) + rb
  {
    assert (ra + rb)[0] == ra[0];
    assert (ra + rb)[1..] == ra[1..] + rb;
  }

  /** The inverse round trip: pieces without the separator are recovered from their join. */
  lemma {:induction false} SplitJoin(xs: seq<string>, c: char)
    requires |xs| >= 1
    requires forall i :: 0 <= i < |xs| ==> c !in xs[i]
    ensures Split(Join(xs, c), c) == xs
    decreases |xs|
  {
    if |xs| == 1 {
      SplitNoSep(xs[0], c);
    } else {
      SplitJoin(xs[1..], c);
      SplitNoSep(xs[0], c);
      SplitAppend(xs[0], Join(xs[1..], c), c);
      assert [xs[0]] + xs[1..] == xs;
    }
  }

  /** Where `sep` does not start the text, its first character belongs to the first piece. */
  lemma FirstPieceStep(s: string, sep: string)
    requires |sep| > 0 && |s| > 0 && !StartsWith(s, sep)
    ensures FirstPiece(s, sep) == [s[0]] + FirstPiece(s[1..], sep)
  {
  }

  /** `FirstPiece` skips over a leading character that cannot start the separator. */
  lemma FirstPieceCons(ch: char, s: string, sep: string)
    requires |sep| > 0 && ch != sep[0]
    ensures FirstPiece([ch] + s, sep) == [ch] + FirstPiece(s, sep)
  {
    assert ([ch] + s)[1..] == s;
    FirstPieceStep([ch] + s, sep);
  }

  /** A prefix without the separator's first character stays in the first piece. */
  lemma {:induction false} FirstPiecePrefix(x: string, s: string, sep: string)
    requires |sep| > 0 && sep[0] !in x
    ensures FirstPiece(x + s, sep) == x + FirstPiece(s, sep)
    decreases |x|
  {
    if |x| > 0 {
      FirstPiecePrefix(x[1..], s, sep);
      Uncons(x, s);
      Uncons(x, FirstPiece(s, sep));
      assert (x + s)[0] != sep[0];
      FirstPieceStep(x + s, sep);
      assert FirstPiece(x + s, sep) == [x[0]] + FirstPiece(x[1..] + s, sep);
    } else {
      assert x + s == s;
      assert x + FirstPiece(s, sep) == FirstPiece(s, sep);
    }
  }

  /** Taking a string apart at its first character. */
  lemma Uncons(a: string, b: string)
    requires |a| > 0
    ensures (a + b)[0] == a[0] && (a + b)[1..] == a[1..] + b
    ensures [a[0]] + (a[1..] + b) == a + b
  {
  }

  /** Concatenation is associative. */
  lemma Assoc(a: string, b: string, c: string)
    ensures a + b + c == a + (b + c)
  {
  }

  /** A string is a prefix of itself extended. */
  lemma IsPrefix(a: string, b: string)
    ensures a <= a + b
  {
    assert (a + b)[..|a|] == a;
  }

  /** Dropping the first character of a concatenation. */
  lemma DropFirst(a: string, b: string, c: string)
    requires |a| > 0
    ensures (a + b + c)[1..] == a[1..] + b + c
  {
  }

  /** Text without an occurrence of `sep` is its own first piece. */
  lemma FirstPieceWhole(s: string, sep: string)
    requires |sep| > 0 && NoneBefore(s, |s|, sep)
    ensures FirstPiece(s, sep) == s
  {
  }

  /** `LStrip` removes exactly the leading run of `c`, however long. */
  lemma {:induction false} LStripPrefix(k: nat, s: string, c: char)
    requires s == [] || s[0] != c
    ensures LStrip(seq(k, _ => c) + s, c) == s
    decreases k
  {
    var t := seq(k, _ => c) + s;
    if k > 0 {
      assert t[0] == c;
      assert t[1..] == seq(k - 1, _ => c) + s;
      LStripPrefix(k - 1, s, c);
    } else {
      assert t == s;
    }
  }

  /** Extra copies of `c` in front change nothing once they are stripped. */
  lemma LStripMore(k: nat, s: string, c: char)
    ensures LStrip(seq(k, _ => c) + s, c) == LStrip(s, c)
  {
    var r := LStrip(s, c);
    var m := |s| - |r|;
    assert seq(k, _ => c) + s == seq(k + m, _ => c) + r by {
      assert s == seq(m, _ => c) + r;
      assert seq(k, _ => c) + seq(m, _ => c) == seq(k + m, _ => c);
    }
    LStripPrefix(k + m, r, c);
  }
}
