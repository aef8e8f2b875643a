/**
 * `format_list` (backend/utils.py): a list rendered for logging, elements
 * joined by ", ", with the list cut after `max_items` elements and its
 * total length appended when it is longer than that.
 */
module Format {

  /** `sep.join(xs)` */
  function Join(xs: seq<string>, sep: string): string
  {
    if |xs| == 0 then ""
    else if |xs| == 1 then xs[0]
    else xs[0] + sep + Join(xs[1..], sep)
  }

  /** Python's slice `s[:k]`, where a negative `k` counts from the end. */
  function PyPrefix<T>(s: seq<T>, k: int): (r: seq<T>)
    ensures |r| == if k >= |s| then |s| else if k >= 0 then k else if |s| + k >= 0 then |s| + k else 0
    ensures r <= s
  {
    if k >= |s| then s
    else if k >= 0 then s[..k]
    else if |s| + k >= 0 then s[..|s| + k]
    else []
  }

  /** The digit character for `d`. */
  function DigitChar(d: nat): (c: char)
    requires d < 10
    ensures '0' <= c <= '9' && (c - '0') as nat == d
  {
    (48 + d) as char
  }

  /** `str(n)` for a non-negative int. */
  function DecimalString(n: nat): (r: string)
    ensures |r| >= 1
    ensures forall i :: 0 <= i < |r| ==> '0' <= r[i] <= '9'
    ensures r[0] == '0' ==> n == 0
    decreases n
  {
    if n < 10 then [DigitChar(n)] else DecimalString(n / 10) + [DigitChar(n % 10)]
  }

  /** The number a string of decimal digits denotes. */
  function DecimalValue(s: string): nat
    requires forall i :: 0 <= i < |s| ==> '0' <= s[i] <= '9'
  {
    if s == [] then 0 else DecimalValue(s[..|s| - 1]) * 10 + (s[|s| - 1] - '0') as nat
  }

  /** The total printed by `format_list` reads back as the list's length. */
  lemma {:induction false} DecimalRoundTrip(n: nat)
    ensures DecimalValue(DecimalString(n)) == n
    decreases n
  {
    if n >= 10 {
      DecimalRoundTrip(n / 10);
      var s := DecimalString(n);
      assert s[..|s| - 1] == DecimalString(n / 10);
      assert (s[|s| - 1] - '0') as nat == n % 10;
      assert DecimalValue(s) == DecimalValue(DecimalString(n / 10)) * 10 + n % 10;
    }
  }

  /** The note `format_list` appends to a cut list. */
  function TotalNote(n: nat): string
  {
    "... (total: " + DecimalString(n) + " items)"
  }

  /**
   * `format_list(lst, max_items)`. A cut list renders as its shown
   * elements followed by the note, as one more element. When no element is
   * shown (a `max_items` of 0, or a negative one that reaches past the
   * start), the output starts with the separator.
   */
  function FormatList(lst: seq<string>, maxItems: int): (r: string)
    ensures lst == [] ==> r == "[]"
    ensures lst != [] && |lst| <= maxItems ==> r == Join(lst, ", ")
    ensures lst != [] && |lst| > maxItems && PyPrefix(lst, maxItems) != [] ==>
      r == Join(PyPrefix(lst, maxItems) + [TotalNote(|lst|)], ", ")
    ensures lst != [] && |lst| > maxItems && PyPrefix(lst, maxItems) == [] ==> r == ", " + TotalNote(|lst|)
  {
    if lst == [] then "[]"
    else if |lst| > maxItems then
      var shown := PyPrefix(lst, maxItems);
      if shown == [] then Join(shown, ", ") + ", " + TotalNote(|lst|)
      else
        JoinSnoc(shown, TotalNote(|lst|), ", ");
        Join(shown, ", ") + ", " + TotalNote(|lst|)
    else Join(lst, ", ")
  }

  /** Index of the first ',' in `s`, or `|s|` when there is none. */
  function CommaIndex(s: string): (i: nat)
    ensures i <= |s|
    ensures i < |s| ==> s[i] == ','
    ensures forall j :: 0 <= j < i ==> s[j] != ','
  {
    if s == [] then 0 else if s[0] == ',' then 0 else 1 + CommaIndex(s[1..])
  }

  /** Cuts a rendered list back into its elements at every ", ". */
  function SplitList(s: string): seq<string>
    decreases |s|
  {
    var i := CommaIndex(s);
    if i + 1 < |s| && s[i + 1] == ' ' then [s[..i]] + SplitList(s[i + 2..]) else [s]
  }

  predicate CommaFree(x: string) {
    forall j :: 0 <= j < |x| ==> x[j] != ','
  }

  lemma CommaIndexAfter(a: string, b: string)
    requires CommaFree(a) && |b| > 0 && b[0] == ','
    ensures CommaIndex(a + b) == |a|
  {
    if a != [] {
      assert (a + b)[1..] == a[1..] + b;
      CommaIndexAfter(a[1..], b);
    }
  }

  lemma {:induction false} JoinSnoc(xs: seq<string>, y: string, sep: string)
    requires xs != []
    ensures Join(xs + [y], sep) == Join(xs, sep) + sep + y
    decreases |xs|
  {
    if |xs| > 1 {
      assert (xs + [y])[1..] == xs[1..] + [y];
      JoinSnoc(xs[1..], y, sep);
    }
  }

  /** Joining comma-free elements with ", " and cutting at ", " gives the elements back. */
  lemma {:induction false} SplitJoin(xs: seq<string>)
    requires xs != []
    requires forall k :: 0 <= k < |xs| ==> CommaFree(xs[k])
    ensures SplitList(Join(xs, ", ")) == xs
    decreases |xs|
  {
    if |xs| == 1 {
      assert CommaIndex(xs[0]) == |xs[0]|;
    } else {
      var x, rest := xs[0], Join(xs[1..], ", ");
      var s := x + ", " + rest;
      assert s == x + (", " + rest);
      CommaIndexAfter(x, ", " + rest);
      assert s[..|x|] == x && s[|x| + 2..] == rest;
      SplitJoin(xs[1..]);
    }
  }

  /**
   * What a reader of `format_list`'s output recovers, cutting it at ", ":
   * every element when the list fits, otherwise the shown elements (or one
   * empty piece when none is shown) followed by the note with the total.
   */
  lemma FormatListReadBack(lst: seq<string>, maxItems: int)
    requires forall k :: 0 <= k < |lst| ==> CommaFree(lst[k])
    ensures lst == [] ==> SplitList(FormatList(lst, maxItems)) == ["[]"]
    ensures lst != [] && |lst| <= maxItems ==> SplitList(FormatList(lst, maxItems)) == lst
    ensures lst != [] && |lst| > maxItems ==>
      SplitList(FormatList(lst, maxItems))
        == (if PyPrefix(lst, maxItems) == [] then [""] else PyPrefix(lst, maxItems)) + [TotalNote(|lst|)]
  {
    var note := TotalNote(|lst|);
    assert CommaFree(note);
    if lst == [] {
      SplitJoin(["[]"]);
    } else if |lst| <= maxItems {
      SplitJoin(lst);
    } else if PyPrefix(lst, maxItems) == [] {
      var s := ", " + note;
      assert CommaIndex(s) == 0 && s[1] == ' ' && s[..0] == "" && s[2..] == note;
      SplitJoin([note]);
    } else {
      SplitJoin(PyPrefix(lst, maxItems) + [note]);
    }
  }
}
