/**
 * Text selection in the OCR worker (streamlit_app.py:100-106): every OCR result
 * is passed through Python's `str.strip()` and the first one that is non-empty
 * afterwards becomes the detected text.
 */
module Text {
  import opened Opt

  /** Python's `str.isspace()` for one character: the characters `strip()` removes
      when called without arguments. */
  predicate IsSpace(c: char) {
    var n := c as int;
    (9 <= n <= 13) || (28 <= n <= 32) || n == 0x85 || n == 0xA0 || n == 0x1680
    || (0x2000 <= n <= 0x200A) || n == 0x2028 || n == 0x2029 || n == 0x202F
    || n == 0x205F || n == 0x3000
  }

  predicate AllSpace(s: string) {
    forall i | 0 <= i < |s| :: IsSpace(s[i])
  }

  /** A string with no whitespace at either end, which is what `strip()` returns. */
  predicate IsStripped(s: string) {
    s == [] || (!IsSpace(s[0]) && !IsSpace(s[|s| - 1]))
  }

  /** The length of the longest all-whitespace prefix of `s`. */
  function LeadingSpaces(s: string): (n: nat)
    ensures n <= |s|
    ensures AllSpace(s[..n])
    ensures n == |s| || !IsSpace(s[n])
  {
    if s != [] && IsSpace(s[0]) then 1 + LeadingSpaces(s[1..]) else 0
  }

  /** The length of the longest all-whitespace suffix of `s`. */
  function TrailingSpaces(s: string): (n: nat)
    ensures n <= |s|
    ensures AllSpace(s[|s| - n..])
    ensures n == |s| || !IsSpace(s[|s| - n - 1])
  {
    if s != [] && IsSpace(s[|s| - 1]) then 1 + TrailingSpaces(s[..|s| - 1]) else 0
  }

  /** Python's `s.strip()`. */
  function Strip(s: string): (r: string)
    ensures |r| <= |s|
    ensures IsStripped(r)
    ensures r == [] <==> AllSpace(s)
  {
    var t := s[LeadingSpaces(s)..];
    t[..|t| - TrailingSpaces(t)]
  }

  /** `strip()` removes exactly the whitespace padding around a stripped core:
      this characterises `Strip` independently of how it is computed. */
  lemma {:induction false} StripOfPadded(p: string, r: string, q: string)
    requires AllSpace(p) && AllSpace(q) && IsStripped(r)
    ensures Strip(p + r + q) == r
  {
    var s := p + r + q;
    if r == [] {
      assert AllSpace(s) by {
        forall i | 0 <= i < |s| ensures IsSpace(s[i]) {
          if i < |p| { assert s[i] == p[i]; } else { assert s[i] == q[i - |p|]; }
        }
      }
    } else {
      var n := LeadingSpaces(s);
      assert s[|p|] == r[0];
      assert n == |p|;
      var t := s[n..];
      assert t == r + q;
      var m := TrailingSpaces(t);
      assert t[|t| - |q| - 1] == r[|r| - 1];
      assert m == |q|;
      assert t[..|t| - m] == r;
    }
  }

  /** Stripping twice is stripping once. */
  lemma {:induction false} StripIdempotent(s: string)
    ensures Strip(Strip(s)) == Strip(s)
  {
    StripOfPadded([], Strip(s), []);
    assert [] + Strip(s) + [] == Strip(s);
  }

  /** The text the worker adopts from one OCR call: the stripped form of the first
      result that is non-empty once stripped, or `None` when there is none. */
  function FirstNonEmpty(results: seq<string>): (sel: Option<string>)
    ensures sel.Some? ==> sel.value != [] && IsStripped(sel.value)
    ensures sel.None? <==> forall i | 0 <= i < |results| :: Strip(results[i]) == []
  {
    if results == [] then None
    else if Strip(results[0]) != [] then Some(Strip(results[0]))
    else FirstNonEmpty(results[1..])
  }

  /** `FirstNonEmpty` picks result `k` exactly when `k` is the first index whose
      stripped text is non-empty. */
  lemma {:induction false} FirstNonEmptyAt(results: seq<string>, k: nat)
    requires k < |results| && Strip(results[k]) != []
    requires forall j | 0 <= j < k :: Strip(results[j]) == []
    ensures FirstNonEmpty(results) == Some(Strip(results[k]))
  {
    if k > 0 {
      var rest := results[1..];
      assert Strip(results[0]) == [];
      assert FirstNonEmpty(results) == FirstNonEmpty(rest);
      assert rest[k - 1] == results[k];
      forall j | 0 <= j < k - 1 ensures Strip(rest[j]) == [] {
        assert rest[j] == results[j + 1];
      }
      FirstNonEmptyAt(rest, k - 1);
    }
  }

  /** The selection loop of the OCR worker. */
  method SelectText(results: seq<string>) returns (sel: Option<string>)
    ensures sel == FirstNonEmpty(results)
  {
    var i := 0;
    while i < |results|
      invariant 0 <= i <= |results|
      invariant forall j | 0 <= j < i :: Strip(results[j]) == []
    {
      var tt := Strip(results[i]);
      if tt != [] {
        FirstNonEmptyAt(results, i);
        return Some(tt);
      }
      i := i + 1;
    }
    sel := None;
  }
}
