/** The rules main.js applies to its module-level `settings` object (the shallow merge of loaded
    or updated settings, where a saved window position is restored, and how the `moved` and
    `resized` handlers write the window bounds back), how a GitHub release tag becomes a version
    to compare, and the one-record stand-in scraper used when webScraper.js cannot be loaded. */
module MainProcess {
  import opened Wrappers
  import opened JsText
  import WebScraper

  // ---------------------------------------------------------------------------------------------
  // Settings

  /** The window geometry kept under `windowBounds`; a member a loaded file left out, or that
      the defaults leave `undefined`, is `None`. */
  datatype WindowBounds = WindowBounds(width: Option<int>, height: Option<int>, x: Option<int>, y: Option<int>)

  /** The value stored under one settings key: the `autoUpdate` flag, the window geometry, or any
      other JSON value, kept as its text. */
  datatype Setting = Flag(flag: bool) | Bounds(bounds: WindowBounds) | Other(json: string)

  /** The settings object, key by key. */
  type Settings = map<string, Setting>

  const AutoUpdateKey := "autoUpdate"
  const BoundsKey := "windowBounds"

  /** The settings the process starts with: updates on, a 1200 by 800 window, no saved position. */
  const DefaultSettings: Settings :=
    map[AutoUpdateKey := Flag(true), BoundsKey := Bounds(WindowBounds(Some(1200), Some(800), None, None))]

  /** `{ ...base, ...patch }`. The merge is shallow: every key of either object is present, a
      key of `patch` takes the patch's value whole (a `windowBounds` in the patch replaces the
      old one rather than being merged into it), and every other key keeps its old value. */
  function Merge(base: Settings, patch: Settings): (r: Settings)
    ensures r.Keys == base.Keys + patch.Keys
    ensures forall k :: k in patch ==> r[k] == patch[k]
    ensures forall k :: k in base && k !in patch ==> r[k] == base[k]
  {
    base + patch
  }

  /** Merging the same patch twice is merging it once, and an empty patch changes nothing. */
  lemma {:induction false} MergeIdempotent(base: Settings, patch: Settings)
    ensures Merge(Merge(base, patch), patch) == Merge(base, patch)
    ensures Merge(base, map[]) == base
  {
  }

  // ---------------------------------------------------------------------------------------------
  // Window position

  /** The bounds check both the restore rule and the `moved` handler apply to a position. */
  predicate OnScreen(x: int, y: int) {
    0 <= x < 4000 && 0 <= y < 4000
  }

  /** Where a new window goes. */
  datatype Placement = Centered | At(x: int, y: int)

  /** The placement `createWindow` chooses: the saved position when both coordinates are defined
      and on screen, centred otherwise; `None` when `windowBounds` is not a bounds object, where
      reading its `x` fails. */
  function InitialPlacement(settings: Settings): (r: Option<Placement>)
    ensures r.Some? <==> BoundsKey in settings && settings[BoundsKey].Bounds?
  {
    if BoundsKey in settings && settings[BoundsKey].Bounds? then
      var b := settings[BoundsKey].bounds;
      if b.x.Some? && b.y.Some? && OnScreen(b.x.value, b.y.value) then Some(At(b.x.value, b.y.value))
      else Some(Centered)
    else
      None
  }

  /** A saved position is used exactly when both coordinates are defined and on screen; it is
      then used as saved. */
  lemma {:induction false} PlacementUsesOnlyValidPositions(settings: Settings, x: int, y: int)
    requires BoundsKey in settings && settings[BoundsKey].Bounds?
    ensures var b := settings[BoundsKey].bounds;
      InitialPlacement(settings) == Some(At(x, y)) <==> b.x == Some(x) && b.y == Some(y) && OnScreen(x, y)
    ensures var b := settings[BoundsKey].bounds;
      InitialPlacement(settings) == Some(Centered) <==> !(b.x.Some? && b.y.Some? && OnScreen(b.x.value, b.y.value))
  {
  }

  /** The default settings centre the window. */
  lemma DefaultsCentre()
    ensures InitialPlacement(DefaultSettings) == Some(Centered)
  {
  }

  /** The process's settings and what it has written to `settings.json`. */
  class SettingsStore {
    var settings: Settings
    /** The successive contents `saveSettings` has written, oldest first. */
    var saved: seq<Settings>

    constructor ()
      ensures settings == DefaultSettings && saved == []
    {
      settings := DefaultSettings;
      saved := [];
    }

    /** `loadSettings`: when the file exists and parses, its keys are merged over the current
        settings; a missing or unreadable file leaves them as they are. Nothing is written. */
    method LoadSettings(file: Option<Option<Settings>>)
      modifies this`settings
      ensures file.Some? && file.value.Some? ==> settings == Merge(old(settings), file.value.value)
      ensures !(file.Some? && file.value.Some?) ==> settings == old(settings)
    {
      match file
      case Some(Some(loaded)) =>
        settings := Merge(settings, loaded);
      case _ =>
    }

    /** The `update-settings` handler: merges the patch, writes the result, returns it, and
        reports whether it goes on to check for updates (exactly when the patch has
        `autoUpdate`). */
    method UpdateSettings(patch: Settings) returns (result: Settings, checksForUpdates: bool)
      modifies this
      ensures settings == Merge(old(settings), patch) && result == settings
      ensures saved == old(saved) + [settings]
      ensures checksForUpdates <==> AutoUpdateKey in patch
    {
      settings := Merge(settings, patch);
      saved := saved + [settings];
      result := settings;
      checksForUpdates := AutoUpdateKey in patch;
    }

    /** The `moved` handler, given the window's new position: an on-screen position is stored as
        `x` and `y` of `windowBounds` and written; anything else changes and writes nothing. The
        size is never touched, and a stored position is the one the next start restores. */
    method OnMoved(x: int, y: int)
      modifies this
      ensures OnScreen(x, y) && BoundsKey in old(settings) && old(settings)[BoundsKey].Bounds? ==>
        && settings == old(settings)[BoundsKey := Bounds(old(settings)[BoundsKey].bounds.(x := Some(x), y := Some(y)))]
        && saved == old(saved) + [settings]
        && InitialPlacement(settings) == Some(At(x, y))
      ensures !(OnScreen(x, y) && BoundsKey in old(settings) && old(settings)[BoundsKey].Bounds?) ==>
        settings == old(settings) && saved == old(saved)
    {
      if OnScreen(x, y) && BoundsKey in settings && settings[BoundsKey].Bounds? {
        var b := settings[BoundsKey].bounds;
        settings := settings[BoundsKey := Bounds(b.(x := Some(x), y := Some(y)))];
        saved := saved + [settings];
      }
    }

    /** The `resized` handler, given the window's new size: a size wider than 400 and taller than
        300 is stored as `width` and `height` of `windowBounds` and written; anything else changes
        and writes nothing. The position, and so where the next start places the window, is
        never touched. */
    method OnResized(width: int, height: int)
      modifies this
      ensures width > 400 && height > 300 && BoundsKey in old(settings) && old(settings)[BoundsKey].Bounds? ==>
        && settings == old(settings)[BoundsKey := Bounds(old(settings)[BoundsKey].bounds.(width := Some(width), height := Some(height)))]
        && saved == old(saved) + [settings]
      ensures !(width > 400 && height > 300 && BoundsKey in old(settings) && old(settings)[BoundsKey].Bounds?) ==>
        settings == old(settings) && saved == old(saved)
      ensures InitialPlacement(settings) == InitialPlacement(old(settings))
    {
      if width > 400 && height > 300 && BoundsKey in settings && settings[BoundsKey].Bounds? {
        var b := settings[BoundsKey].bounds;
        settings := settings[BoundsKey := Bounds(b.(width := Some(width), height := Some(height)))];
        saved := saved + [settings];
      }
    }
  }

  // ---------------------------------------------------------------------------------------------
  // Release tags

  /** The version a release tag names: the tag with its first `v` removed, wherever it is. */
  function LatestVersion(tag: string): (r: string)
    ensures 'v' !in tag ==> r == tag
    ensures 'v' in tag ==> |r| == |tag| - 1
  {
    IndexOfCharFound(tag, 'v');
    ReplaceFirst(tag, "v", "")
  }

  /** An update is reported exactly when the tag's version differs from the running one: for a
      tag without a `v`, when the tag itself differs; for one with a `v`, always when the tag is
      not one character longer than the running version. */
  predicate UpdateAvailable(tag: string, currentVersion: string): (b: bool)
    ensures 'v' !in tag ==> (b <==> tag != currentVersion)
    ensures 'v' in tag && |tag| != |currentVersion| + 1 ==> b
  {
    LatestVersion(tag) != currentVersion
  }

  /** `LatestVersion` deletes the first `v` of the tag and keeps everything else; a tag without
      a `v` is returned unchanged. */
  lemma {:induction false} LatestVersionDropsFirstV(tag: string)
    ensures 'v' !in tag ==> LatestVersion(tag) == tag
    ensures forall i :: 0 <= i < |tag| && tag[i] == 'v' && 'v' !in tag[..i] ==>
      LatestVersion(tag) == tag[..i] + tag[i + 1..]
  {
    match IndexOf(tag, "v", 0)
    case None =>
      forall i | 0 <= i < |tag| ensures tag[i] != 'v' {
        OccursAtChar(tag, 'v', i);
      }
    case Some(j) =>
      OccursAtChar(tag, 'v', j);
      forall i | 0 <= i < |tag| && tag[i] == 'v' && 'v' !in tag[..i] ensures i == j {
        OccursAtChar(tag, 'v', i);
      }
  }

  /** So a tag written `v` followed by a version names that version, and the current version's
      own tag reports no update. */
  lemma {:induction false} LeadingVTag(version: string)
    ensures LatestVersion("v" + version) == version
    ensures !UpdateAvailable("v" + version, version)
  {
  }

  // ---------------------------------------------------------------------------------------------
  // The stand-in scraper

  /** The scraper main.js falls back to when webScraper.js cannot be loaded: no timer and no
      network, one fixed record. */
  class MockScraper {
    var isRunning: bool
    /** Every call of a callback so far, oldest first. */
    var deliveries: seq<WebScraper.Delivery>

    constructor ()
      ensures !isRunning && deliveries == []
    {
      isRunning := false;
      deliveries := [];
    }

    /** `fetchStockData`: always the single record that is also the first of the real
        scraper's fallback records. */
    method FetchStockData() returns (data: seq<WebScraper.StockRecord>)
      ensures |data| == 1 && data[0] == WebScraper.MockData()[0]
      ensures WebScraper.WellFormed(data[0])
    {
      WebScraper.SteelMockWellFormed();
      data := [WebScraper.SteelMock];
    }

    /** `startAutoUpdate`: marks the scraper running (even when it already is) and hands the
        fixed record to the callback, if one is given; nothing is armed. */
    method StartAutoUpdate(callback: Option<WebScraper.CallbackId>)
      modifies this
      ensures isRunning
      ensures callback.Some? ==> deliveries == old(deliveries) + [WebScraper.Delivery(callback.value, [WebScraper.MockData()[0]])]
      ensures callback.None? ==> deliveries == old(deliveries)
    {
      isRunning := true;
      var data := FetchStockData();
      assert data == [data[0]];
      if callback.Some? {
        deliveries := deliveries + [WebScraper.Delivery(callback.value, data)];
      }
    }

    /** `stopAutoUpdate`: marks the scraper stopped. */
    method StopAutoUpdate()
      modifies this`isRunning
      ensures !isRunning
    {
      isRunning := false;
    }
  }
}
