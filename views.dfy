/**
 * The view helpers of View.kt: the debounced ("safe") click listener and the
 * setters of a view's visibility, enabled/clickable flags and margins.
 *
 * The platform clock is not read here: each click carries the reading of
 * `System.currentTimeMillis()` as a parameter, and the user's `onClick`
 * callback is represented by the boolean a click returns (true: it ran once).
 */
module Views {
  import opened Wrappers

  // ---------------------------------------------------------------------------
  // Kotlin's fixed-width integers

  const MinLong: int := -0x8000_0000_0000_0000
  const MaxLong: int := 0x7fff_ffff_ffff_ffff

  /** A Kotlin `Long`. */
  type Long = x: int | -0x8000_0000_0000_0000 <= x <= 0x7fff_ffff_ffff_ffff

  /** A Kotlin `Int`. */
  type Int32 = x: int | -0x8000_0000 <= x <= 0x7fff_ffff

  /** The two's-complement result a 64-bit operation yields for the exact value `x`. */
  function WrapLong(x: int): (r: Long)
    ensures (r - x) % 0x1_0000_0000_0000_0000 == 0
    ensures MinLong <= x <= MaxLong ==> r == x
  {
    (x + 0x8000_0000_0000_0000) % 0x1_0000_0000_0000_0000 - 0x8000_0000_0000_0000
  }

  /** Kotlin's `a - b` on two `Long`s, which wraps around on overflow. */
  function LongSub(a: Long, b: Long): (r: Long) {
    WrapLong(a - b)
  }

  // ---------------------------------------------------------------------------
  // setOnSafeClickListener

  /** The debounce time used when none is given. */
  const DefaultDebounceTimeMs: Long := 300

  /**
   * The test a click must pass to reach `onClick`: `currentTime - lastClickTime
   * >= debounceTimeMs`, with the subtraction done in 64 bits. Without overflow
   * it is the mathematical comparison.
   */
  predicate Passes(debounceTimeMs: Long, lastClickTime: Long, currentTime: Long): (r: bool)
    ensures MinLong <= currentTime - lastClickTime <= MaxLong ==>
      (r <==> currentTime - lastClickTime >= debounceTimeMs)
  {
    LongSub(currentTime, lastClickTime) >= debounceTimeMs
  }

  /** The stored timestamp after the clicks at `forwarded` went through: 0 before any. */
  function LastClickTime(forwarded: seq<Long>): (t: Long) {
    if forwarded == [] then 0 else forwarded[|forwarded| - 1]
  }

  /**
   * The clock readings, in order, of the clicks a listener with this debounce
   * time forwards to `onClick` when it is clicked at the readings `times`.
   */
  function Forwarded(debounceTimeMs: Long, times: seq<Long>): (r: seq<Long>)
    ensures |r| <= |times|
    ensures forall x :: x in r ==> x in times
    decreases |times|
  {
    if times == [] then []
    else
      var prev := Forwarded(debounceTimeMs, times[..|times| - 1]);
      var now := times[|times| - 1];
      if Passes(debounceTimeMs, LastClickTime(prev), now) then prev + [now] else prev
  }

  /** Clock readings taken after the epoch, as `System.currentTimeMillis()` gives them. */
  ghost predicate NonNegative(times: seq<Long>) {
    forall i :: 0 <= i < |times| ==> times[i] >= 0
  }

  ghost predicate NonDecreasing(times: seq<Long>) {
    forall i, j :: 0 <= i < j < |times| ==> times[i] <= times[j]
  }

  /** Each element is at least `d` after the one before it. */
  ghost predicate Spaced(d: int, s: seq<int>) {
    forall i :: 0 < i < |s| ==> s[i] - s[i - 1] >= d
  }

  /** Two readings after the epoch never make the subtraction overflow. */
  lemma ClockReadingsDoNotOverflow(lastClickTime: Long, currentTime: Long)
    requires lastClickTime >= 0 && currentTime >= 0
    ensures LongSub(currentTime, lastClickTime) == currentTime - lastClickTime
  {
  }

  /** Since the stored timestamp starts at 0, the first click goes through exactly when `now >= debounceTimeMs`. */
  lemma FirstClick(debounceTimeMs: Long, now: Long)
    ensures Forwarded(debounceTimeMs, [now]) == if now >= debounceTimeMs then [now] else []
  {
    assert [now][..0] == [];
  }

  /**
   * The debounce guarantee as the source computes it, for every clock reading:
   * the 64-bit difference between the first forwarded click and 0, and between
   * each forwarded click and the one forwarded before it, is at least
   * `debounceTimeMs`.
   */
  lemma {:induction false} ForwardedSpacedInLong(debounceTimeMs: Long, times: seq<Long>)
    ensures var f := Forwarded(debounceTimeMs, times);
      && (|f| > 0 ==> LongSub(f[0], 0) >= debounceTimeMs)
      && (forall i :: 0 < i < |f| ==> LongSub(f[i], f[i - 1]) >= debounceTimeMs)
  {
    if times != [] {
      var init, now := times[..|times| - 1], times[|times| - 1];
      ForwardedSpacedInLong(debounceTimeMs, init);
      var prev := Forwarded(debounceTimeMs, init);
      if Passes(debounceTimeMs, LastClickTime(prev), now) {
        var f := prev + [now];
        assert forall i :: 0 <= i < |prev| ==> f[i] == prev[i];
        assert |prev| > 0 ==> f[|prev| - 1] == LastClickTime(prev);
      }
    }
  }

  /**
   * With clock readings after the epoch, the first forwarded click is at least
   * `debounceTimeMs` after 0 and each forwarded click at least `debounceTimeMs`
   * after the one forwarded before it.
   */
  lemma {:induction false} ForwardedSpacedFromZero(debounceTimeMs: Long, times: seq<Long>)
    requires NonNegative(times)
    ensures Spaced(debounceTimeMs, [0] + Forwarded(debounceTimeMs, times))
  {
    if times != [] {
      var init, now := times[..|times| - 1], times[|times| - 1];
      var prev := Forwarded(debounceTimeMs, init);
      ForwardedSpacedFromZero(debounceTimeMs, init);
      var last := LastClickTime(prev);
      if Passes(debounceTimeMs, last, now) {
        assert last >= 0 by {
          if prev != [] {
            assert last in init;
          }
        }
        ClockReadingsDoNotOverflow(last, now);
        var s := [0] + prev;
        assert s[|s| - 1] == last;
        assert [0] + Forwarded(debounceTimeMs, times) == s + [now];
      }
    }
  }

  /** Under a non-negative spacing, consecutive spacing extends to every pair. */
  lemma {:induction false} SpacedPair(d: int, s: seq<int>, i: int, j: int)
    requires d >= 0 && Spaced(d, s)
    requires 0 <= i < j < |s|
    ensures s[j] - s[i] >= d
    decreases j - i
  {
    if j > i + 1 {
      SpacedPair(d, s, i, j - 1);
    }
  }

  /**
   * The debounce guarantee. With clock readings after the epoch, every
   * forwarded click is at least `debounceTimeMs` after the one forwarded
   * before it, and the first at least `debounceTimeMs` after time 0; with a
   * non-negative debounce time this holds between any two forwarded clicks.
   */
  lemma {:induction false} ForwardedClicksSpaced(debounceTimeMs: Long, times: seq<Long>)
    requires NonNegative(times)
    ensures var f := Forwarded(debounceTimeMs, times);
      && (|f| > 0 ==> f[0] >= debounceTimeMs)
      && (forall i :: 0 < i < |f| ==> f[i] - f[i - 1] >= debounceTimeMs)
      && (debounceTimeMs >= 0 ==> forall i, j :: 0 <= i < j < |f| ==> f[j] - f[i] >= debounceTimeMs)
  {
    var f := Forwarded(debounceTimeMs, times);
    var s := [0] + f;
    ForwardedSpacedFromZero(debounceTimeMs, times);
    if |f| > 0 {
      assert s[1] - s[0] >= debounceTimeMs;
    }
    forall i | 0 < i < |f| ensures f[i] - f[i - 1] >= debounceTimeMs {
      assert s[i + 1] == f[i] && s[i] == f[i - 1];
    }
    if debounceTimeMs >= 0 {
      forall i, j | 0 <= i < j < |f| ensures f[j] - f[i] >= debounceTimeMs {
        SpacedPair(debounceTimeMs, s, i + 1, j + 1);
      }
    }
  }

  /** With a debounce time of 0, a click no earlier than the last forwarded one goes through. */
  lemma ZeroDebounceClick(lastClickTime: Long, now: Long)
    requires 0 <= lastClickTime <= now
    ensures Passes(0, lastClickTime, now)
  {
  }

  /** With a debounce time of 0 and a clock that does not go back, every click goes through. */
  lemma {:induction false} ZeroDebounceForwardsAll(times: seq<Long>)
    requires NonNegative(times) && NonDecreasing(times)
    ensures Forwarded(0, times) == times
  {
    if times != [] {
      var init, now := times[..|times| - 1], times[|times| - 1];
      ZeroDebounceForwardsAll(init);
      var last := LastClickTime(init);
      assert 0 <= last <= now by {
        if init != [] {
          assert last == times[|init| - 1];
        }
      }
      ZeroDebounceClick(last, now);
      assert times == init + [now];
    }
  }

  /**
   * The subtraction is 64-bit: after a click forwarded at 1, a clock reading
   * that jumps back to the smallest `Long` gives `Long.MAX_VALUE` as the
   * difference, and that click goes through as well.
   */
  lemma BackwardJumpWrapsAround()
    ensures Forwarded(0, [1, MinLong]) == [1, MinLong]
  {
    assert [1, MinLong as Long][..1] == [1];
    assert [1 as Long][..0] == [];
  }

  /**
   * The 64-bit subtraction can also drop a click: with a debounce time of 0,
   * after clicks forwarded at 1 and at the smallest `Long`, a click at the
   * largest `Long` is later than the last forwarded one, yet the difference
   * wraps to -1 and the click is dropped.
   */
  lemma ZeroDebounceDropsWrappedClick()
    ensures Forwarded(0, [1, MinLong, MaxLong]) == [1, MinLong]
  {
    var t: seq<Long> := [1, MinLong, MaxLong];
    assert t[..1][..0] == [];
    assert Forwarded(0, t[..1]) == [1];
    assert t[..2][..1] == t[..1];
    assert Forwarded(0, t[..2]) == [1, MinLong];
    assert t[..2] == t[..|t| - 1];
  }

  /** Clicks at 0, 100, 250, 400 and 750 with the default debounce time: the first is dropped too. */
  lemma DefaultDebounceRun()
    ensures Forwarded(DefaultDebounceTimeMs, [0, 100, 250, 400, 750]) == [400, 750]
  {
    var t: seq<Long> := [0, 100, 250, 400, 750];
    assert t[..1][..0] == [];
    assert Forwarded(300, t[..1]) == [];
    assert t[..2][..1] == t[..1];
    assert Forwarded(300, t[..2]) == [];
    assert t[..3][..2] == t[..2];
    assert Forwarded(300, t[..3]) == [];
    assert t[..4][..3] == t[..3];
    assert Forwarded(300, t[..4]) == [400];
    assert t[..4] == t[..|t| - 1];
  }

  /**
   * The state `setOnSafeClickListener` creates: the debounce time and the
   * captured `lastClickTime`, which starts at 0. `Clicks` records the clock
   * readings of all clicks so far, for the specification only.
   */
  class SafeClickListener {
    const debounceTimeMs: Long
    var lastClickTime: Long
    ghost var Clicks: seq<Long>

    ghost predicate Valid()
      reads this
    {
      lastClickTime == LastClickTime(Forwarded(debounceTimeMs, Clicks))
    }

    /** `setOnSafeClickListener(debounceTimeMs, onClick)`; a negative time is not rejected. */
    constructor (debounceTimeMs: Long)
      ensures Valid()
      ensures this.debounceTimeMs == debounceTimeMs && lastClickTime == 0 && Clicks == []
    {
      this.debounceTimeMs := debounceTimeMs;
      lastClickTime := 0;
      Clicks := [];
    }

    /** `setOnSafeClickListener(onClick)`, with the default debounce time. */
    constructor Default()
      ensures Valid()
      ensures debounceTimeMs == DefaultDebounceTimeMs && lastClickTime == 0 && Clicks == []
    {
      debounceTimeMs := DefaultDebounceTimeMs;
      lastClickTime := 0;
      Clicks := [];
    }

    /**
     * A click whose clock reading is `now`: it is forwarded (`fired`, and
     * `onClick` runs once) exactly when it passes the debounce test, and then
     * `now` becomes the stored timestamp; otherwise nothing changes.
     */
    method Click(now: Long) returns (fired: bool)
      requires Valid()
      modifies this
      ensures Valid()
      ensures fired <==> Passes(debounceTimeMs, old(lastClickTime), now)
      ensures lastClickTime == if fired then now else old(lastClickTime)
      ensures Clicks == old(Clicks) + [now]
      ensures Forwarded(debounceTimeMs, Clicks) ==
        Forwarded(debounceTimeMs, old(Clicks)) + if fired then [now] else []
    {
      Clicks := Clicks + [now];
      assert Clicks[..|Clicks| - 1] == old(Clicks);
      if LongSub(now, lastClickTime) >= debounceTimeMs {
        lastClickTime := now;
        fired := true;
      } else {
        fired := false;
      }
    }
  }

  // ---------------------------------------------------------------------------
  // Visibility, enabled state and margins

  /** `View.VISIBLE`, `View.INVISIBLE` and `View.GONE`. */
  datatype Visibility = Visible | Invisible | Gone

  /** The visibility `toggleVisibility(gone)` leaves behind. */
  function Toggled(v: Visibility, gone: bool): (r: Visibility)
    ensures r == Visible <==> v != Visible
    ensures v == Visible ==> (r == Gone <==> gone)
  {
    if v == Visible then (if gone then Gone else Invisible) else Visible
  }

  /** Toggling twice from VISIBLE comes back to VISIBLE, whatever the two `gone` arguments. */
  lemma ToggleTwiceFromVisible(gone1: bool, gone2: bool)
    ensures Toggled(Toggled(Visible, gone1), gone2) == Visible
  {
  }

  /**
   * Toggling twice with the same argument restores the visibility exactly when
   * the view was VISIBLE or already in the state that argument hides it to.
   */
  lemma ToggleTwiceRestores(v: Visibility, gone: bool)
    ensures Toggled(Toggled(v, gone), gone) == v <==>
      v == Visible || (v == Gone && gone) || (v == Invisible && !gone)
  {
  }

  /** Four margins, in the order `setMargins` takes them. */
  datatype Margins = Margins(start: Int32, top: Int32, end: Int32, bottom: Int32)

  /**
   * A view's `layoutParams`: margin layout parameters, parameters of another
   * class, or none (`null`).
   */
  datatype LayoutParams = MarginParams(margins: Margins) | OtherParams | NoParams

  /**
   * The exceptions the cast `as ViewGroup.MarginLayoutParams` throws: for
   * parameters of another class, and for `null`.
   */
  datatype Error = ClassCast | NullPointer

  /**
   * `setMargins(start, top, end, bottom)` applied to `params`; an omitted
   * argument (`None`) keeps the current value of its margin.
   */
  function WithMargins(params: LayoutParams, start: Option<Int32>, top: Option<Int32>,
                       end: Option<Int32>, bottom: Option<Int32>): (r: Result<LayoutParams, Error>)
    ensures r.Failure? <==> !params.MarginParams?
    ensures r.Failure? ==> r.error == if params.NoParams? then NullPointer else ClassCast
    ensures r.Success? ==> r.value.MarginParams?
    ensures r.Success? ==>
      var m, m' := params.margins, r.value.margins;
      && (start.Some? ==> m'.start == start.value) && (start.None? ==> m'.start == m.start)
      && (top.Some? ==> m'.top == top.value) && (top.None? ==> m'.top == m.top)
      && (end.Some? ==> m'.end == end.value) && (end.None? ==> m'.end == m.end)
      && (bottom.Some? ==> m'.bottom == bottom.value) && (bottom.None? ==> m'.bottom == m.bottom)
  {
    match params
    case OtherParams => Failure(ClassCast)
    case NoParams => Failure(NullPointer)
    case MarginParams(m) =>
      Success(MarginParams(Margins(start.GetOr(m.start), top.GetOr(m.top), end.GetOr(m.end), bottom.GetOr(m.bottom))))
  }

  /** Omitting every argument leaves margin parameters as they are. */
  lemma WithNoMargins(m: Margins)
    ensures WithMargins(MarginParams(m), None, None, None, None) == Success(MarginParams(m))
  {
  }

  /** Setting the same margins twice gives what setting them once does. */
  lemma WithMarginsIdempotent(params: LayoutParams, start: Option<Int32>, top: Option<Int32>,
                              end: Option<Int32>, bottom: Option<Int32>)
    requires WithMargins(params, start, top, end, bottom).Success?
    ensures var once := WithMargins(params, start, top, end, bottom).value;
      WithMargins(once, start, top, end, bottom) == Success(once)
  {
  }

  /** The state of a view that the helpers of View.kt read and write. */
  class ViewState {
    var visibility: Visibility
    var isEnabled: bool
    var isClickable: bool
    var layoutParams: LayoutParams

    constructor (visibility: Visibility, isEnabled: bool, isClickable: bool, layoutParams: LayoutParams)
      ensures this.visibility == visibility && this.isEnabled == isEnabled
      ensures this.isClickable == isClickable && this.layoutParams == layoutParams
    {
      this.visibility := visibility;
      this.isEnabled := isEnabled;
      this.isClickable := isClickable;
      this.layoutParams := layoutParams;
    }

    /** `hide()`: GONE, whatever the visibility was, so a second call changes nothing. */
    method Hide()
      modifies this`visibility
      ensures visibility == Gone
    {
      visibility := Gone;
    }

    /** `invisible()`: INVISIBLE, whatever the visibility was. */
    method Invisible()
      modifies this`visibility
      ensures visibility == Visibility.Invisible
    {
      visibility := Visibility.Invisible;
    }

    /** `show()`: VISIBLE, whatever the visibility was. */
    method Show()
      modifies this`visibility
      ensures visibility == Visible
    {
      visibility := Visible;
    }

    /** `isVisible()`. */
    function IsVisible(): (r: bool)
      reads this
      ensures r <==> visibility == Visible
    {
      visibility == Visible
    }

    /** `toggleVisibility(gone)`; `gone` is true when omitted. */
    method ToggleVisibility(gone: bool := true)
      modifies this`visibility
      ensures visibility == Toggled(old(visibility), gone)
    {
      if visibility == Visible {
        visibility := if gone then Gone else Visibility.Invisible;
      } else {
        visibility := Visible;
      }
    }

    /** `disable()`. */
    method Disable()
      modifies this`isEnabled, this`isClickable
      ensures !isEnabled && !isClickable
    {
      isEnabled := false;
      isClickable := false;
    }

    /** `enable()`. */
    method Enable()
      modifies this`isEnabled, this`isClickable
      ensures isEnabled && isClickable
    {
      isEnabled := true;
      isClickable := true;
    }

    /**
     * `setMargins(start, top, end, bottom)`: `ok` is false when the cast
     * throws, and then nothing has changed.
     */
    method SetMargins(start: Option<Int32>, top: Option<Int32>, end: Option<Int32>, bottom: Option<Int32>)
      returns (ok: bool)
      modifies this`layoutParams
      ensures var r := WithMargins(old(layoutParams), start, top, end, bottom);
        && (ok <==> r.Success?)
        && layoutParams == if ok then r.value else old(layoutParams)
    {
      match layoutParams
      case OtherParams =>
        ok := false;
      case NoParams =>
        ok := false;
      case MarginParams(m) =>
        var params := Margins(start.GetOr(m.start), top.GetOr(m.top), end.GetOr(m.end), bottom.GetOr(m.bottom));
        layoutParams := MarginParams(params);
        ok := true;
    }
  }
}
