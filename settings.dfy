/**
 * SettingsManager.kt: grid width, grid height and game speed kept in a
 * key-to-int preference store, clamped into range both when written and
 * when read, and the speed-to-delay table.
 */
module Settings {

  const KeyGridWidth := "grid_width"
  const KeyGridHeight := "grid_height"
  const KeyGameSpeed := "game_speed"

  const DefaultGridWidth := 10
  const DefaultGridHeight := 20
  const DefaultGameSpeed := 2

  const MinGridWidth := 8
  const MaxGridWidth := 12
  const MinGridHeight := 16
  const MaxGridHeight := 24
  const MinGameSpeed := 1
  const MaxGameSpeed := 5

  /** Kotlin's `coerceIn`: the value itself when in range, else the nearer bound. */
  function CoerceIn(v: int, lo: int, hi: int): (r: int)
    requires lo <= hi
    ensures lo <= r <= hi
    ensures lo <= v <= hi ==> r == v
    ensures v < lo ==> r == lo
    ensures v > hi ==> r == hi
  {
    if v < lo then lo else if v > hi then hi else v
  }

  /** Clamping twice is clamping once. */
  lemma CoerceInIdempotent(v: int, lo: int, hi: int)
    requires lo <= hi
    ensures CoerceIn(CoerceIn(v, lo, hi), lo, hi) == CoerceIn(v, lo, hi)
  {
  }

  /** The `when` table of `getInitialFallDelay`, in milliseconds; any other speed gets 1000. */
  function DelayForSpeed(speed: int): (d: int)
    ensures 300 <= d <= 1500
    ensures MinGameSpeed <= speed <= MaxGameSpeed ==> d == [1500, 1000, 700, 450, 300][speed - 1]
    ensures !(MinGameSpeed <= speed <= MaxGameSpeed) ==> d == 1000
  {
    match speed
    case 1 => 1500
    case 2 => 1000
    case 3 => 700
    case 4 => 450
    case 5 => 300
    case _ => 1000
  }

  /** A faster speed setting means a strictly shorter delay. */
  lemma DelayStrictlyDecreasing(slower: int, faster: int)
    requires MinGameSpeed <= slower < faster <= MaxGameSpeed
    ensures DelayForSpeed(faster) < DelayForSpeed(slower)
  {
  }

  /** `SharedPreferences.getInt(key, default)` on the stored map. */
  function Lookup(m: map<string, int>, key: string, default: int): (r: int)
    ensures key in m ==> r == m[key]
    ensures key !in m ==> r == default
  {
    if key in m then m[key] else default
  }

  /**
   * The store's put/get contract: a key reads back what was last put under
   * it, putting under one key leaves every other key's reading as it was,
   * and a key never put reads as the default.
   */
  lemma LookupPut(m: map<string, int>, key: string, other: string, v: int, default: int)
    ensures Lookup(m[key := v], key, default) == v
    ensures other != key ==> Lookup(m[key := v], other, default) == Lookup(m, other, default)
    ensures key !in m ==> Lookup(m, key, default) == default
  {
  }

  class SettingsManager {
    /** The `SharedPreferences` store. */
    var prefs: map<string, int>

    constructor (stored: map<string, int>)
      ensures prefs == stored
    {
      prefs := stored;
    }

    /** The `gridWidth` getter: within [8, 12] whatever is stored, 10 when nothing is. */
    function GridWidth(): (w: int)
      reads this
      ensures MinGridWidth <= w <= MaxGridWidth
      ensures KeyGridWidth !in prefs ==> w == DefaultGridWidth
      ensures KeyGridWidth in prefs && MinGridWidth <= prefs[KeyGridWidth] <= MaxGridWidth ==> w == prefs[KeyGridWidth]
    {
      CoerceIn(Lookup(prefs, KeyGridWidth, DefaultGridWidth), MinGridWidth, MaxGridWidth)
    }

    /** The `gridHeight` getter: within [16, 24] whatever is stored, 20 when nothing is. */
    function GridHeight(): (h: int)
      reads this
      ensures MinGridHeight <= h <= MaxGridHeight
      ensures KeyGridHeight !in prefs ==> h == DefaultGridHeight
      ensures KeyGridHeight in prefs && MinGridHeight <= prefs[KeyGridHeight] <= MaxGridHeight ==> h == prefs[KeyGridHeight]
    {
      CoerceIn(Lookup(prefs, KeyGridHeight, DefaultGridHeight), MinGridHeight, MaxGridHeight)
    }

    /** The `gameSpeed` getter: within [1, 5] whatever is stored, 2 when nothing is. */
    function GameSpeed(): (s: int)
      reads this
      ensures MinGameSpeed <= s <= MaxGameSpeed
      ensures KeyGameSpeed !in prefs ==> s == DefaultGameSpeed
      ensures KeyGameSpeed in prefs && MinGameSpeed <= prefs[KeyGameSpeed] <= MaxGameSpeed ==> s == prefs[KeyGameSpeed]
    {
      CoerceIn(Lookup(prefs, KeyGameSpeed, DefaultGameSpeed), MinGameSpeed, MaxGameSpeed)
    }

    /** The `gridWidth` setter: stores the clamped value under its key only. */
    method SetGridWidth(value: int)
      modifies this
      ensures prefs == old(prefs)[KeyGridWidth := CoerceIn(value, MinGridWidth, MaxGridWidth)]
      ensures GridWidth() == CoerceIn(value, MinGridWidth, MaxGridWidth)
      ensures GridHeight() == old(GridHeight()) && GameSpeed() == old(GameSpeed())
    {
      prefs := prefs[KeyGridWidth := CoerceIn(value, MinGridWidth, MaxGridWidth)];
    }

    /** The `gridHeight` setter: stores the clamped value under its key only. */
    method SetGridHeight(value: int)
      modifies this
      ensures prefs == old(prefs)[KeyGridHeight := CoerceIn(value, MinGridHeight, MaxGridHeight)]
      ensures GridHeight() == CoerceIn(value, MinGridHeight, MaxGridHeight)
      ensures GridWidth() == old(GridWidth()) && GameSpeed() == old(GameSpeed())
    {
      prefs := prefs[KeyGridHeight := CoerceIn(value, MinGridHeight, MaxGridHeight)];
    }

    /** The `gameSpeed` setter: stores the clamped value under its key only. */
    method SetGameSpeed(value: int)
      modifies this
      ensures prefs == old(prefs)[KeyGameSpeed := CoerceIn(value, MinGameSpeed, MaxGameSpeed)]
      ensures GameSpeed() == CoerceIn(value, MinGameSpeed, MaxGameSpeed)
      ensures GridWidth() == old(GridWidth()) && GridHeight() == old(GridHeight())
    {
      prefs := prefs[KeyGameSpeed := CoerceIn(value, MinGameSpeed, MaxGameSpeed)];
    }

    /**
     * `getInitialFallDelay`: the table entry for the clamped speed, so
     * always between 300 and 1500 ms; the table's fallback is never used.
     */
    function GetInitialFallDelay(): (d: int)
      reads this
      ensures 300 <= d <= 1500
      ensures d == [1500, 1000, 700, 450, 300][GameSpeed() - 1]
    {
      DelayForSpeed(GameSpeed())
    }
  }
}
