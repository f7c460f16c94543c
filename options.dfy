/**
 * The plugin options: how each variant normalises `config.reveald3`, and how
 * the path of a visualization file is chosen from `mapPath`,
 * `tryFallbackURL` and the result of the existence probe.
 */
module Options {
  import opened Base

  /** `config.reveald3.mapPath`: absent, a string, or some other value, of
      which only the truthiness matters. */
  datatype MapPathSetting = MapPathUnset | MapPathString(path: string) | MapPathOther(truthy: bool)

  /** The user's `config.reveald3`; `None` is an absent key. */
  datatype Config = Config(
    runLastState: Option<bool>,
    onSlideChangedDelay: Option<int>,
    mapPath: MapPathSetting,
    tryFallbackURL: Option<bool>,
    disableCheckFile: Option<bool>,
    keepIframe: Option<bool>)

  /** The options object of the current plugin. */
  datatype DemoOptions = DemoOptions(
    runLastState: bool,
    onSlideChangedDelay: int,
    mapPath: string,
    tryFallbackURL: bool,
    disableCheckFile: bool)

  /** The options object of the older variant, after the `keepIframe` override. */
  datatype LegacyOptions = LegacyOptions(
    runLastState: bool,
    keepIframe: bool,
    mapPath: string,
    tryFallbackURL: bool)

  /** `!!x` on an optional boolean. */
  function Truthy(x: Option<bool>): bool
  {
    x.Some? && x.value
  }

  /** The `mapPath` option, the same in both variants: a string is taken as
      it is, any other truthy value means "src", and otherwise no prefix. */
  function MapPath(m: MapPathSetting): (p: string)
    ensures m.MapPathString? ==> p == m.path
    ensures m.MapPathUnset? ==> p == ""
    ensures m.MapPathOther? ==> p == (if m.truthy then "src" else "")
  {
    match m
    case MapPathString(s) => s
    case MapPathOther(b) => if b then "src" else ""
    case MapPathUnset => ""
  }

  /** `x == undefined ? d : x`: a set value wins over the default. */
  function Defaulted<T>(x: Option<T>, d: T): T
  {
    if x.None? then d else x.value
  }

  /** The options of the current plugin (lines 17-44). `runLastState` is
      `x == undefined ? !x : x`, which is `true` when absent. */
  function DemoOptionsOf(c: Config): (o: DemoOptions)
    ensures o.runLastState == (c.runLastState.None? || c.runLastState.value)
    ensures o.onSlideChangedDelay == (if c.onSlideChangedDelay.Some? then c.onSlideChangedDelay.value else 0)
    ensures o.mapPath == MapPath(c.mapPath)
    ensures o.tryFallbackURL == Truthy(c.tryFallbackURL)
    ensures o.disableCheckFile == Truthy(c.disableCheckFile)
  {
    DemoOptions(
      if c.runLastState.None? then !Truthy(c.runLastState) else c.runLastState.value,
      Defaulted(c.onSlideChangedDelay, 0),
      MapPath(c.mapPath),
      if c.tryFallbackURL.None? then Truthy(c.tryFallbackURL) else c.tryFallbackURL.value,
      if c.disableCheckFile.None? then Truthy(c.disableCheckFile) else c.disableCheckFile.value)
  }

  /** Every option of the current plugin keeps a value the user set. */
  lemma DemoOptionsHonourSetValues(c: Config)
    requires c.runLastState.Some? && c.onSlideChangedDelay.Some?
    requires c.tryFallbackURL.Some? && c.disableCheckFile.Some?
    ensures var o := DemoOptionsOf(c);
      && o.runLastState == c.runLastState.value
      && o.onSlideChangedDelay == c.onSlideChangedDelay.value
      && o.tryFallbackURL == c.tryFallbackURL.value
      && o.disableCheckFile == c.disableCheckFile.value
  {
  }

  /** With an empty configuration: replay on, no delay, no prefix, no
      fallback, existence check on. */
  lemma DemoDefaults()
    ensures DemoOptionsOf(Config(None, None, MapPathUnset, None, None, None))
      == DemoOptions(true, 0, "", false, false)
  {
  }

  /** The `keepIframe` override of the older variant (lines 58-62): with the
      iframes kept there is no state to recover, so replay is switched off. */
  function KeepIframeOverride(o: LegacyOptions): (r: LegacyOptions)
    ensures r.runLastState == (o.runLastState && !o.keepIframe)
    ensures r.keepIframe == o.keepIframe && r.mapPath == o.mapPath && r.tryFallbackURL == o.tryFallbackURL
  {
    if o.keepIframe then o.(runLastState := false) else o
  }

  /** The options of the older variant as written (lines 9-31, 58-62):
      `runLastState` is `!config.reveald3.runLastState`, so setting it to
      `true` switches replay off. */
  function LegacyOptionsAsWritten(c: Config): (o: LegacyOptions)
    ensures o.runLastState == (!Truthy(c.runLastState) && !Truthy(c.keepIframe))
    ensures o.keepIframe == Truthy(c.keepIframe)
    ensures o.mapPath == MapPath(c.mapPath) && o.tryFallbackURL == Truthy(c.tryFallbackURL)
  {
    KeepIframeOverride(LegacyOptions(!Truthy(c.runLastState), Truthy(c.keepIframe), MapPath(c.mapPath),
      Truthy(c.tryFallbackURL)))
  }

  /** The inversion: asking for replay turns it off, asking for no replay turns it on. */
  lemma LegacyRunLastStateInverted()
    ensures !LegacyOptionsAsWritten(Config(Some(true), None, MapPathUnset, None, None, None)).runLastState
    ensures LegacyOptionsAsWritten(Config(Some(false), None, MapPathUnset, None, None, None)).runLastState
  {
  }

  /** The options of the older variant with `runLastState` read the way its
      comment ("default true") and the current plugin mean it: the corrected
      options of the older variant. */
  function LegacyOptionsOf(c: Config): (o: LegacyOptions)
    ensures o.keepIframe == Truthy(c.keepIframe)
    ensures o.mapPath == MapPath(c.mapPath) && o.tryFallbackURL == Truthy(c.tryFallbackURL)
  {
    KeepIframeOverride(LegacyOptions(c.runLastState.None? || c.runLastState.value, Truthy(c.keepIframe),
      MapPath(c.mapPath), Truthy(c.tryFallbackURL)))
  }

  /** Replay follows the user's setting, defaults to on, and is off whenever
      the iframes are kept; it agrees with the current plugin's option unless
      `keepIframe` is set. */
  lemma LegacyRunLastStateIntended(c: Config)
    ensures LegacyOptionsOf(c).runLastState <==> (c.runLastState.None? || c.runLastState.value) && !Truthy(c.keepIframe)
    ensures !Truthy(c.keepIframe) ==> LegacyOptionsOf(c).runLastState == DemoOptionsOf(c).runLastState
    ensures Truthy(c.keepIframe) ==> !LegacyOptionsOf(c).runLastState
  {
  }

  // ---------------------------------------------------------------------
  // The path of the visualization file
  // ---------------------------------------------------------------------

  /** `fileExists` of the current plugin (line 294): the probe of
      `mapPath + file` (`Some(true)`, `Some(false)`, or `None` when it failed
      and resolved to `undefined`), or `true` when the check is disabled. */
  function FileExists(o: DemoOptions, probe: Option<bool>): (e: Option<bool>)
    ensures o.disableCheckFile ==> e == Some(true)
    ensures !o.disableCheckFile ==> e == probe
  {
    if !o.disableCheckFile then probe else Some(true)
  }

  /** `filePath` of the current plugin as written (line 295): the prefixed
      path only when the fallback is requested and the probe succeeded. */
  function DemoFilePathAsWritten(o: DemoOptions, file: string, probe: Option<bool>): (p: string)
    ensures p == o.mapPath + file || p == file
    ensures !o.tryFallbackURL ==> p == file
  {
    if o.tryFallbackURL && FileExists(o, probe) == Some(true) then o.mapPath + file else file
  }

  /** Without `tryFallbackURL` the `mapPath` prefix is never applied, so a
      deck that only sets `mapPath` loads its visualizations from the
      unprefixed path. */
  lemma DemoMapPathIgnored()
    ensures var o := DemoOptionsOf(Config(None, None, MapPathString("slides/"), None, None, None));
      && o.mapPath == "slides/"
      && DemoFilePathAsWritten(o, "viz.html", Some(true)) == "viz.html"
  {
  }

  /** `filePath` as the option comments describe it: the file is looked up
      under `mapPath`, and only when the fallback is requested and the file
      was not confirmed there does the plugin use the unprefixed path: the
      corrected choice. */
  function DemoFilePath(o: DemoOptions, file: string, probe: Option<bool>): (p: string)
    ensures p == file <==> (o.tryFallbackURL && FileExists(o, probe) != Some(true)) || o.mapPath == ""
    ensures p != file ==> p == o.mapPath + file
  {
    if o.tryFallbackURL && FileExists(o, probe) != Some(true) then file else o.mapPath + file
  }

  /** The corrected choice agrees with the code whenever the fallback is
      requested, and without it always applies the prefix. */
  lemma DemoFilePathAgrees(o: DemoOptions, file: string, probe: Option<bool>)
    ensures o.tryFallbackURL ==> DemoFilePath(o, file, probe) == DemoFilePathAsWritten(o, file, probe)
    ensures !o.tryFallbackURL ==> DemoFilePath(o, file, probe) == o.mapPath + file
    ensures o.disableCheckFile ==> DemoFilePath(o, file, probe) == o.mapPath + file
  {
  }

  /** `filePath` of the older variant (line 317). Its `doesFileExist` starts
      an asynchronous request and returns `undefined`, so the condition is
      always false and the path is the bare file name. */
  function LegacyFilePath(o: LegacyOptions, file: string): (p: string)
    ensures p == file
  {
    var fileExists: Option<bool> := None;
    if o.tryFallbackURL && fileExists == Some(true) then o.mapPath + file else file
  }
}
