/**
 * The client's window list: the windows last received from the server, their one-line
 * and verbose renderings, the case-insensitive title filter of the `list` command, and
 * lookup by handle. Printing is modelled as the sequence of lines passed to `println!`.
 */
module ClientWindow {
  import opened Wrappers
  import opened Wire
  import opened Text

  /** A window as the server reported it. */
  datatype WindowInfo = WindowInfo(handle: U64, title: string, className: string)

  // ---------------------------------------------------------------------------
  // Rendering
  // ---------------------------------------------------------------------------

  /** The longest prefix of `s` made of digits of `radix`: how a reader takes a numeral back. */
  function LeadingDigits(s: string, radix: nat): (d: string)
    requires IsRadix(radix)
    ensures |d| <= |s| && d == s[..|d|]
    ensures forall i :: 0 <= i < |d| ==> IsDigitOf(d[i], radix)
    ensures |d| < |s| ==> !IsDigitOf(s[|d|], radix)
  {
    if s == [] || !IsDigitOf(s[0], radix) then [] else [s[0]] + LeadingDigits(s[1..], radix)
  }

  /** Digits followed by a non-digit are taken back whole. */
  lemma {:induction false} LeadingDigitsOfNumeral(digits: string, rest: string, radix: nat)
    requires IsRadix(radix)
    requires forall i :: 0 <= i < |digits| ==> IsDigitOf(digits[i], radix)
    requires rest == [] || !IsDigitOf(rest[0], radix)
    ensures LeadingDigits(digits + rest, radix) == digits
  {
    if digits != [] {
      assert (digits + rest)[1..] == digits[1..] + rest;
      LeadingDigitsOfNumeral(digits[1..], rest, radix);
    } else {
      assert digits + rest == rest;
    }
  }

  /** A handle as the client formats it: `0x`, then upper-case hexadecimal, unpadded. */
  function HandleText(handle: U64): (s: string)
    ensures |s| >= 3 && s[..2] == "0x" && IsNumeral(s[2..], 16)
  {
    assert ("0x" + Numeral(handle, 16))[2..] == Numeral(handle, 16);
    "0x" + Numeral(handle, 16)
  }

  /** The one-line rendering: handle, class name in brackets, then the title. */
  function Display(w: WindowInfo): (s: string)
    ensures var handle := HandleText(w.handle);
            |s| >= |handle| + |w.title| && s[..|handle|] == handle && s[|s| - |w.title|..] == w.title
  {
    HandleText(w.handle) + " [" + w.className + "] - " + w.title
  }

  /** The verbose rendering: handle, title and class name on labelled lines. */
  function DisplayVerbose(w: WindowInfo): (s: string)
    ensures |s| >= 7 && s[..6] == "窗口句柄: " && s[|s| - 1] == '\n'
  {
    "窗口句柄: " + HandleText(w.handle) + "\n标题: " + w.title + "\n类名: " + w.className + "\n"
  }

  /** The handle read back from the text that follows `0x`. */
  function ReadHandle(s: string): nat
  {
    AllDigitsEach(LeadingDigits(s, 16), 16);
    NumeralValue(LeadingDigits(s, 16), 16)
  }

  /** A numeral written after any fixed text and before a non-digit is read back from the text that follows the fixed part. */
  lemma ReadBackAfter(tag: string, n: nat, rest: string)
    requires rest == [] || !IsDigitOf(rest[0], 16)
    ensures var text := tag + (Numeral(n, 16) + rest);
            text[..|tag|] == tag && ReadHandle(text[|tag|..]) == n
  {
    var digits := Numeral(n, 16);
    assert (tag + (digits + rest))[|tag|..] == digits + rest;
    AllDigitsEach(digits, 16);
    LeadingDigitsOfNumeral(digits, rest, 16);
    NumeralValueOfNumeral(n, 16);
  }

  /** The one-line rendering is `0x`, the hexadecimal digits, then text starting with a space. */
  lemma DisplayLayout(w: WindowInfo)
    ensures Display(w) == "0x" + (Numeral(w.handle, 16) + (" [" + w.className + "] - " + w.title))
  {
  }

  /** The verbose rendering is its handle label, the hexadecimal digits, then text starting with a line break. */
  lemma DisplayVerboseLayout(w: WindowInfo)
    ensures DisplayVerbose(w) ==
            "窗口句柄: 0x" + (Numeral(w.handle, 16) + ("\n标题: " + w.title + "\n类名: " + w.className + "\n"))
  {
  }

  /** The one-line rendering starts with `0x` and the handle can be read back from it. */
  lemma DisplayShowsHandle(w: WindowInfo)
    ensures var line := Display(w);
            |line| >= 2 && line[..2] == "0x" && ReadHandle(line[2..]) == w.handle
  {
    DisplayLayout(w);
    ReadBackAfter("0x", w.handle, " [" + w.className + "] - " + w.title);
  }

  /** The verbose rendering shows the handle after its tag, readable back from it. */
  lemma DisplayVerboseShowsHandle(w: WindowInfo)
    ensures var text := DisplayVerbose(w);
            var tag := "窗口句柄: 0x";
            |text| >= |tag| && text[..|tag|] == tag && ReadHandle(text[|tag|..]) == w.handle
  {
    DisplayVerboseLayout(w);
    ReadBackAfter("窗口句柄: 0x", w.handle, "\n标题: " + w.title + "\n类名: " + w.className + "\n");
  }

  // ---------------------------------------------------------------------------
  // Filtering
  // ---------------------------------------------------------------------------

  /** The `list` filter: no filter keeps every window, otherwise the title must contain it, ignoring case. */
  function Matches(w: WindowInfo, filter: Option<string>): (r: bool)
    ensures r <==> filter.None? || exists i :: OccursAt(Lower(w.title), Lower(filter.value), i)
  {
    filter.None? || Contains(Lower(w.title), Lower(filter.value))
  }

  /** The windows the filter keeps, in their original order. */
  function Select(windows: seq<WindowInfo>, filter: Option<string>): (s: seq<WindowInfo>)
    ensures |s| <= |windows|
  {
    if windows == [] then []
    else
      var last := windows[|windows| - 1];
      Select(windows[..|windows| - 1], filter) + (if Matches(last, filter) then [last] else [])
  }

  /** A window is listed exactly when it is known and the filter keeps it. */
  lemma {:induction false} SelectMembership(windows: seq<WindowInfo>, filter: Option<string>, w: WindowInfo)
    ensures w in Select(windows, filter) <==> w in windows && Matches(w, filter)
  {
    if windows != [] {
      var init := windows[..|windows| - 1];
      SelectMembership(init, filter, w);
      assert windows == init + [windows[|windows| - 1]];
    }
  }

  /**
   * Filtering a concatenation filters each part and keeps them in order: the kept windows
   * keep their relative order, and a window listed twice is kept as often as it is listed.
   */
  lemma {:induction false} SelectAppend(a: seq<WindowInfo>, b: seq<WindowInfo>, filter: Option<string>)
    ensures Select(a + b, filter) == Select(a, filter) + Select(b, filter)
    decreases |b|
  {
    if b == [] {
      assert a + b == a;
    } else {
      var init := b[..|b| - 1];
      var last := b[|b| - 1];
      var kept := if Matches(last, filter) then [last] else [];
      assert (a + b)[..|a + b| - 1] == a + init && (a + b)[|a + b| - 1] == last;
      SelectAppend(a, init, filter);
      ConcatAssociates(Select(a, filter), Select(init, filter), kept);
    }
  }

  /** Without a filter every window is listed, in order. */
  lemma {:induction false} SelectWithoutFilter(windows: seq<WindowInfo>)
    ensures Select(windows, None) == windows
  {
    if windows != [] {
      SelectWithoutFilter(windows[..|windows| - 1]);
    }
  }

  /** An empty filter text matches every title. */
  lemma {:induction false} SelectWithEmptyFilter(windows: seq<WindowInfo>)
    ensures Select(windows, Some("")) == windows
  {
    if windows != [] {
      var last := windows[|windows| - 1];
      assert OccursAt(Lower(last.title), Lower(""), 0);
      SelectWithEmptyFilter(windows[..|windows| - 1]);
    }
  }

  /** Filtering the filtered list again changes nothing. */
  lemma {:induction false} SelectIdempotent(windows: seq<WindowInfo>, filter: Option<string>)
    ensures Select(Select(windows, filter), filter) == Select(windows, filter)
  {
    if windows != [] {
      var last := windows[|windows| - 1];
      var init := windows[..|windows| - 1];
      SelectIdempotent(init, filter);
      var s := Select(init, filter);
      if Matches(last, filter) {
        assert Select(windows, filter) == s + [last];
        assert (s + [last])[..|s|] == s;
        assert Select(s + [last], filter) == Select(s, filter) + [last];
      } else {
        assert Select(windows, filter) == s;
      }
    }
  }

  /** The filter ignores ASCII case on both sides. */
  lemma FilterIgnoresCase(w: WindowInfo, filter: string)
    ensures Matches(w, Some(filter)) == Matches(w.(title := Lower(w.title)), Some(Lower(filter)))
  {
    LowerIdempotent(w.title);
    LowerIdempotent(filter);
  }

  // ---------------------------------------------------------------------------
  // Lookup
  // ---------------------------------------------------------------------------

  /** The first window with `handle`, if any. */
  function Find(windows: seq<WindowInfo>, handle: U64): (r: Option<nat>)
    ensures r.None? <==> forall i :: 0 <= i < |windows| ==> windows[i].handle != handle
    ensures r.Some? ==> r.value < |windows| && windows[r.value].handle == handle &&
                        forall j :: 0 <= j < r.value ==> windows[j].handle != handle
  {
    if windows == [] then None
    else if windows[0].handle == handle then Some(0)
    else match Find(windows[1..], handle)
      case None => None
      case Some(k) => Some(k + 1)
  }

  const NoMatchLine: string := "没有找到匹配的窗口"

  /** The header of a non-empty listing, with the count in decimal. */
  function Header(count: nat): (h: string)
    ensures |h| >= 9 && h[..3] == "找到 " && h[|h| - 5..] == " 个窗口:"
  {
    "找到 " + Numeral(count, 10) + " 个窗口:"
  }

  /** The header shows the count, which reads back from the text between its two fixed parts. */
  lemma HeaderShowsCount(count: nat)
    ensures var line := Header(count);
            |line| >= 9 && line[..3] == "找到 " && line[|line| - 5..] == " 个窗口:" &&
            IsNumeral(line[3..|line| - 5], 10) && NumeralValue(line[3..|line| - 5], 10) == count
  {
    var line := Header(count);
    assert line[3..|line| - 5] == Numeral(count, 10);
    NumeralValueOfNumeral(count, 10);
  }

  /** What one kept window prints: the verbose text and an empty line, or the one-line rendering. */
  function Line(w: WindowInfo, verbose: bool): (l: string)
    ensures verbose ==> |l| >= 2 && l[|l| - 2..] == "\n\n"
    ensures !verbose ==> |l| >= |HandleText(w.handle)| && l[..|HandleText(w.handle)|] == HandleText(w.handle)
  {
    if verbose then DisplayVerbose(w) + "\n" else Display(w)
  }

  /** The lines printed for the kept windows: the i-th renders the i-th kept window. */
  function Lines(kept: seq<WindowInfo>, verbose: bool): seq<string>
  {
    seq(|kept|, i requires 0 <= i < |kept| => Line(kept[i], verbose))
  }

  /** One more kept window adds its line at the end. */
  lemma LinesSnoc(kept: seq<WindowInfo>, k: nat, verbose: bool)
    requires k < |kept|
    ensures Lines(kept[..k + 1], verbose) == Lines(kept[..k], verbose) + [Line(kept[k], verbose)]
  {
  }

  /** Everything `list` prints for the kept windows. */
  function Listing(kept: seq<WindowInfo>, verbose: bool): (l: seq<string>)
    ensures |l| == if kept == [] then 1 else |kept| + 1
    ensures l[0] == if kept == [] then NoMatchLine else Header(|kept|)
  {
    if kept == [] then [NoMatchLine] else [Header(|kept|)] + Lines(kept, verbose)
  }

  /**
   * A listing is the no-match notice alone exactly when nothing was kept; otherwise it is
   * the header with the count, then one rendering per kept window, in order.
   */
  lemma ListingShape(kept: seq<WindowInfo>, verbose: bool)
    ensures Listing(kept, verbose) == [NoMatchLine] <==> kept == []
    ensures kept != [] ==>
              |Listing(kept, verbose)| == |kept| + 1 && Listing(kept, verbose)[0] == Header(|kept|) &&
              forall i :: 0 <= i < |kept| ==> Listing(kept, verbose)[i + 1] == Line(kept[i], verbose)
  {
    if kept != [] {
      HeaderIsNotNoMatch(|kept|);
      var listing := Listing(kept, verbose);
      var lines := Lines(kept, verbose);
      assert listing == [Header(|kept|)] + lines;
      forall i | 0 <= i < |kept|
        ensures listing[i + 1] == Line(kept[i], verbose)
      {
        IndexAfterHead(Header(|kept|), lines, i);
      }
    }
  }

  /** Past a one-element head, a concatenation indexes its tail. */
  lemma IndexAfterHead<T>(head: T, tail: seq<T>, i: nat)
    requires i < |tail|
    ensures ([head] + tail)[i + 1] == tail[i]
  {
  }

  /** A header is never the no-match notice: their second characters differ. */
  lemma HeaderIsNotNoMatch(count: nat)
    ensures Header(count) != NoMatchLine
  {
    assert Header(count)[1] == '到';
    assert NoMatchLine[1] == '有';
  }

  // ---------------------------------------------------------------------------
  // The window manager
  // ---------------------------------------------------------------------------

  class WindowManager {
    /** The windows last received from the server, in the server's order. */
    var windows: seq<WindowInfo>

    constructor ()
      ensures windows == []
    {
      windows := [];
    }

    /** Replace the known windows with a new list. */
    method UpdateWindows(newWindows: seq<WindowInfo>)
      modifies this`windows
      ensures windows == newWindows
    {
      windows := newWindows;
    }

    /** The first known window with `handle`, or nothing when no window has it. */
    function FindWindow(handle: U64): (r: Option<WindowInfo>)
      reads this
      ensures r.None? <==> forall i :: 0 <= i < |windows| ==> windows[i].handle != handle
      ensures r.Some? ==> exists i :: 0 <= i < |windows| && windows[i] == r.value && r.value.handle == handle &&
                                      forall j :: 0 <= j < i ==> windows[j].handle != handle
    {
      match Find(windows, handle)
      case None => None
      case Some(i) => Some(windows[i])
    }

    /** The known windows the filter keeps, collected in order. */
    method FilterWindows(filter: Option<string>) returns (filtered: seq<WindowInfo>)
      ensures filtered == Select(windows, filter)
    {
      filtered := [];
      for k := 0 to |windows|
        invariant filtered == Select(windows[..k], filter)
      {
        assert windows[..k + 1][..k] == windows[..k];
        if Matches(windows[k], filter) {
          filtered := filtered + [windows[k]];
        }
      }
      assert windows[..|windows|] == windows;
    }

    /**
     * The lines `list` prints: a no-match notice when the filter keeps nothing, otherwise
     * a header with the count followed by one rendering per kept window, in order.
     */
    method ListWindows(filter: Option<string>, verbose: bool) returns (lines: seq<string>)
      ensures lines == Listing(Select(windows, filter), verbose)
    {
      var filtered := FilterWindows(filter);
      if filtered == [] {
        return [NoMatchLine];
      }
      var header := Header(|filtered|);
      lines := [header];
      for k := 0 to |filtered|
        invariant lines == [header] + Lines(filtered[..k], verbose)
      {
        var line;
        if verbose {
          line := DisplayVerbose(filtered[k]) + "\n";
        } else {
          line := Display(filtered[k]);
        }
        LinesSnoc(filtered, k, verbose);
        ConcatAssociates([header], Lines(filtered[..k], verbose), [line]);
        lines := lines + [line];
      }
      assert filtered[..|filtered|] == filtered;
    }
  }
}
