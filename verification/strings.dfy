/**
 * The two pieces of JavaScript string handling the engine relies on:
 * `String.prototype.split` on a one-character separator, and `Number(...)`
 * applied to a field of decimal digits.
 */
module Strings {
  import opened Models

  /**
   * `s.split(sep)`: the pieces between separators, in order. As in
   * JavaScript, the empty string yields one empty piece and a trailing
   * separator yields a trailing empty piece.
   */
  function Split(s: string, sep: char): (pieces: seq<string>)
    ensures |pieces| == Count(s, sep) + 1
    ensures forall i :: 0 <= i < |pieces| ==> sep !in pieces[i]
  {
    if |s| == 0 then [""]
    else
      var rest := Split(s[1..], sep);
      if s[0] == sep then
        assert s == [sep] + s[1..];
        [""] + rest
      else
        assert s == [s[0]] + s[1..];
        [[s[0]] + rest[0]] + rest[1..]
  }

  /** `pieces.join(sep)`. */
  function Join(pieces: seq<string>, sep: char): string {
    if |pieces| == 0 then ""
    else if |pieces| == 1 then pieces[0]
    else pieces[0] + [sep] + Join(pieces[1..], sep)
  }

  /** Joining the pieces of a split with the same separator gives the string back. */
  lemma {:induction false} JoinSplit(s: string, sep: char)
    ensures Join(Split(s, sep), sep) == s
  {
    if |s| > 0 {
      var rest := Split(s[1..], sep);
      JoinSplit(s[1..], sep);
      if s[0] == sep {
        assert Split(s, sep) == [""] + rest;
        assert s == [sep] + s[1..];
      } else {
        assert Split(s, sep) == [[s[0]] + rest[0]] + rest[1..];
        assert s == [s[0]] + s[1..];
        if |rest| > 1 {
          assert Join(rest, sep) == rest[0] + [sep] + Join(rest[1..], sep);
        }
      }
    }
  }

  /** The first piece of a split is the longest prefix free of the separator. */
  lemma {:induction false} FirstPiece(s: string, sep: char)
    ensures Split(s, sep)[0] <= s
    ensures |Split(s, sep)[0]| < |s| ==> s[|Split(s, sep)[0]|] == sep
  {
    if |s| > 0 && s[0] != sep {
      FirstPiece(s[1..], sep);
      var rest := Split(s[1..], sep);
      assert Split(s, sep)[0] == [s[0]] + rest[0];
      assert s == [s[0]] + s[1..];
    }
  }

  /** The number of occurrences of `c` in `s`. */
  function Count(s: string, c: char): nat {
    if |s| == 0 then 0
    else (if s[0] == c then 1 else 0) + Count(s[1..], c)
  }

  /** A character occurs in `s` exactly when its count is positive. */
  lemma {:induction false} CountZero(s: string, c: char)
    ensures Count(s, c) == 0 <==> c !in s
  {
    if |s| > 0 {
      CountZero(s[1..], c);
      assert s == [s[0]] + s[1..];
    }
  }

  /** Splitting a prefix free of the separator extends the first piece only. */
  lemma {:induction false} SplitPrefix(p: string, t: string, sep: char)
    requires sep !in p
    ensures Split(p + t, sep) == [p + Split(t, sep)[0]] + Split(t, sep)[1..]
  {
    if |p| > 0 {
      assert (p + t)[1..] == p[1..] + t;
      SplitPrefix(p[1..], t, sep);
      assert [p[0]] + (p[1..] + Split(t, sep)[0]) == p + Split(t, sep)[0];
    } else {
      var r := Split(t, sep);
      assert p + t == t;
      assert p + r[0] == r[0];
      assert r == [r[0]] + r[1..];
    }
  }

  /** Splitting undoes joining pieces that do not contain the separator. */
  lemma {:induction false} SplitJoin(pieces: seq<string>, sep: char)
    requires |pieces| >= 1
    requires forall i :: 0 <= i < |pieces| ==> sep !in pieces[i]
    ensures Split(Join(pieces, sep), sep) == pieces
  {
    if |pieces| == 1 {
      SplitPrefix(pieces[0], "", sep);
      assert pieces[0] + "" == pieces[0];
    } else {
      var tail := Join(pieces[1..], sep);
      SplitJoin(pieces[1..], sep);
      assert Join(pieces, sep) == pieces[0] + ([sep] + tail);
      SplitPrefix(pieces[0], [sep] + tail, sep);
      assert ([sep] + tail)[1..] == tail;
      assert Split([sep] + tail, sep) == [""] + pieces[1..];
      assert pieces[0] + "" == pieces[0];
    }
  }

  predicate IsDigit(c: char) {
    '0' <= c <= '9'
  }

  function DigitValue(c: char): nat
    requires IsDigit(c)
  {
    c as int - '0' as int
  }

  function DigitChar(d: nat): (c: char)
    requires d < 10
    ensures IsDigit(c) && DigitValue(c) == d
  {
    ('0' as int + d) as char
  }

  /** The value of a (possibly empty) string of decimal digits. */
  function DecimalValue(s: string): nat
    requires forall i :: 0 <= i < |s| ==> IsDigit(s[i])
  {
    if |s| == 0 then 0
    else DecimalValue(s[..|s| - 1]) * 10 + DigitValue(s[|s| - 1])
  }

  /**
   * `Number(s)` for a field of the engine's inputs. A string of ASCII digits
   * denotes its decimal value (the empty string denotes 0); any other string
   * denotes NaN, modelled as `None`.
   */
  function NumberOf(s: string): (n: Option<nat>)
    ensures n.Some? <==> forall i :: 0 <= i < |s| ==> IsDigit(s[i])
  {
    if forall i :: 0 <= i < |s| ==> IsDigit(s[i]) then Some(DecimalValue(s)) else None
  }

  /** The shortest decimal rendering of `n`. */
  function ShowNat(n: nat): (s: string)
    ensures |s| >= 1
    ensures forall i :: 0 <= i < |s| ==> IsDigit(s[i])
  {
    if n < 10 then [DigitChar(n)] else ShowNat(n / 10) + [DigitChar(n % 10)]
  }

  /** Reading back the decimal rendering of `n` gives `n`. */
  lemma {:induction false} NumberOfShowNat(n: nat)
    ensures NumberOf(ShowNat(n)) == Some(n)
  {
    var s := ShowNat(n);
    if n < 10 {
      assert s[..0] == "";
      assert DecimalValue(s) == DecimalValue(s[..0]) * 10 + DigitValue(s[0]);
    } else {
      NumberOfShowNat(n / 10);
      assert s[..|s| - 1] == ShowNat(n / 10);
    }
  }

  /** A leading zero does not change the value of a digit string. */
  lemma {:induction false} LeadingZero(s: string)
    requires forall i :: 0 <= i < |s| ==> IsDigit(s[i])
    ensures NumberOf("0" + s) == NumberOf(s)
  {
    if |s| > 0 {
      LeadingZero(s[..|s| - 1]);
      assert ("0" + s)[..|"0" + s| - 1] == "0" + s[..|s| - 1];
    } else {
      assert ("0" + s)[..0] == "";
    }
  }
}
