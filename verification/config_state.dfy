/**
 * Player configuration state: patching with "changed fields only" side
 * effects, and the local-AI install state machine (installing flag, progress
 * text, the persisted in-progress marker and the detected install status).
 *
 * The persisted marker is `localStorage`'s install key, modelled as a boolean.
 * Results of the desktop commands (`ollama_is_installed`, `ollama_has_model`,
 * `ollama_install_model`) arrive as event parameters.
 */
module ConfigState {
  import opened Wrappers

  datatype PlayerConfig = PlayerConfig(
    enableAudio: bool,
    toggleFullscreen: bool,
    language: string,
    theme: string,
    enableLocalAi: bool)

  /** The configuration a new player starts with. */
  const DefaultConfig: PlayerConfig := PlayerConfig(true, false, "en", "default", false)

  /** A `Partial<PlayerConfig>`: each field either given or absent. */
  datatype ConfigPatch = ConfigPatch(
    enableAudio: Option<bool>,
    toggleFullscreen: Option<bool>,
    language: Option<string>,
    theme: Option<string>,
    enableLocalAi: Option<bool>)

  const NoFields: ConfigPatch := ConfigPatch(None, None, None, None, None)

  /** `{ ...previous, ...partial }`: given fields override, absent ones keep the previous value. */
  function Merge(prev: PlayerConfig, partial: ConfigPatch): (next: PlayerConfig)
    ensures partial.enableAudio.None? ==> next.enableAudio == prev.enableAudio
    ensures partial.enableAudio.Some? ==> next.enableAudio == partial.enableAudio.value
    ensures partial.toggleFullscreen.None? ==> next.toggleFullscreen == prev.toggleFullscreen
    ensures partial.toggleFullscreen.Some? ==> next.toggleFullscreen == partial.toggleFullscreen.value
    ensures partial.language.None? ==> next.language == prev.language
    ensures partial.language.Some? ==> next.language == partial.language.value
    ensures partial.theme.None? ==> next.theme == prev.theme
    ensures partial.theme.Some? ==> next.theme == partial.theme.value
    ensures partial.enableLocalAi.None? ==> next.enableLocalAi == prev.enableLocalAi
    ensures partial.enableLocalAi.Some? ==> next.enableLocalAi == partial.enableLocalAi.value
  {
    PlayerConfig(
      partial.enableAudio.GetOr(prev.enableAudio),
      partial.toggleFullscreen.GetOr(prev.toggleFullscreen),
      partial.language.GetOr(prev.language),
      partial.theme.GetOr(prev.theme),
      partial.enableLocalAi.GetOr(prev.enableLocalAi))
  }

  /** Applying the same partial twice is applying it once. */
  lemma MergeIdempotent(prev: PlayerConfig, partial: ConfigPatch)
    ensures Merge(Merge(prev, partial), partial) == Merge(prev, partial)
  {
  }

  /** An empty partial changes nothing. */
  lemma MergeNoFields(prev: PlayerConfig)
    ensures Merge(prev, NoFields) == prev
  {
  }

  /** The outside-world calls `applyChangedEffects` may make. */
  datatype SideEffect =
    | SetFullscreen(on: bool)
    | SetAudioEnabled(on: bool)
    | SetTheme(name: string)
    | SetActiveLanguage(code: string)

  /** Position of each kind of effect in the order `applyChangedEffects` issues them. */
  function EffectOrder(e: SideEffect): nat {
    match e
    case SetFullscreen(_) => 0
    case SetAudioEnabled(_) => 1
    case SetTheme(_) => 2
    case SetActiveLanguage(_) => 3
  }

  /** `e` pushes `next`'s value of a field that differs between `prev` and `next`. */
  predicate Justified(e: SideEffect, prev: PlayerConfig, next: PlayerConfig) {
    match e
    case SetFullscreen(on) => on == next.toggleFullscreen && next.toggleFullscreen != prev.toggleFullscreen
    case SetAudioEnabled(on) => on == next.enableAudio && next.enableAudio != prev.enableAudio
    case SetTheme(name) => name == next.theme && next.theme != prev.theme
    case SetActiveLanguage(code) => code == next.language && next.language != prev.language
  }

  /**
   * `applyChangedEffects`: one effect per changed field among fullscreen,
   * audio, theme and language, in that order, and nothing for other fields.
   */
  function ChangedEffects(prev: PlayerConfig, next: PlayerConfig): (effects: seq<SideEffect>)
    ensures forall k :: 0 <= k < |effects| ==> Justified(effects[k], prev, next)
    ensures forall k :: 0 < k < |effects| ==> EffectOrder(effects[k - 1]) < EffectOrder(effects[k])
    ensures next.toggleFullscreen != prev.toggleFullscreen ==> SetFullscreen(next.toggleFullscreen) in effects
    ensures next.enableAudio != prev.enableAudio ==> SetAudioEnabled(next.enableAudio) in effects
    ensures next.theme != prev.theme ==> SetTheme(next.theme) in effects
    ensures next.language != prev.language ==> SetActiveLanguage(next.language) in effects
  {
    (if next.toggleFullscreen != prev.toggleFullscreen then [SetFullscreen(next.toggleFullscreen)] else [])
    + (if next.enableAudio != prev.enableAudio then [SetAudioEnabled(next.enableAudio)] else [])
    + (if next.theme != prev.theme then [SetTheme(next.theme)] else [])
    + (if next.language != prev.language then [SetActiveLanguage(next.language)] else [])
  }

  /** The new configuration and the effects issued for it. */
  datatype Patched = Patched(config: PlayerConfig, effects: seq<SideEffect>)

  /** `patch`: merge, then issue effects for what actually changed. */
  function Patch(cfg: PlayerConfig, partial: ConfigPatch): (r: Patched)
    ensures r.config == Merge(cfg, partial)
    ensures forall k :: 0 <= k < |r.effects| ==> Justified(r.effects[k], cfg, r.config)
    ensures |r.effects| <= 4
    // every effectful field that changed fires its effect, once, in the fixed order
    ensures r.effects == ChangedEffects(cfg, r.config)
    ensures r.config.toggleFullscreen != cfg.toggleFullscreen ==> SetFullscreen(r.config.toggleFullscreen) in r.effects
    ensures r.config.enableAudio != cfg.enableAudio ==> SetAudioEnabled(r.config.enableAudio) in r.effects
    ensures r.config.theme != cfg.theme ==> SetTheme(r.config.theme) in r.effects
    ensures r.config.language != cfg.language ==> SetActiveLanguage(r.config.language) in r.effects
  {
    var next := Merge(cfg, partial);
    Patched(next, ChangedEffects(cfg, next))
  }

  /** Re-sending the current values, or touching only `enableLocalAi`, issues no effect. */
  lemma PatchQuietWhenNothingEffectfulChanges(cfg: PlayerConfig, partial: ConfigPatch)
    requires partial.enableAudio.None? || partial.enableAudio.value == cfg.enableAudio
    requires partial.toggleFullscreen.None? || partial.toggleFullscreen.value == cfg.toggleFullscreen
    requires partial.language.None? || partial.language.value == cfg.language
    requires partial.theme.None? || partial.theme.value == cfg.theme
    ensures Patch(cfg, partial).effects == []
  {
  }

  // ---------------------------------------------------------------------------
  // Local-AI install state machine
  // ---------------------------------------------------------------------------

  /** The install-related signals, plus the persisted in-progress marker. */
  datatype InstallState = InstallState(
    ollamaInstalled: bool,
    modelInstalled: bool,
    installing: bool,
    progress: Option<string>,
    flag: bool)

  /** Signals as the service constructs them, before any detection. */
  const InitialInstall: InstallState := InstallState(false, false, false, None, false)

  /** `canToggleLocalAI`. */
  predicate CanToggleLocalAI(s: InstallState) {
    s.ollamaInstalled && s.modelInstalled
  }

  /** The progress text shown when an install starts or resumes. */
  const StartProgress: string := "0%"

  /**
   * The marker and the installing signal agree, and progress is shown
   * exactly while installing.
   */
  predicate Coherent(s: InstallState) {
    && (s.installing <==> s.flag)
    && (s.installing <==> s.progress.Some?)
  }

  /**
   * The tail of `initialize`: the marker read from storage is reconciled with
   * the detected model status (the detection results are parameters).
   */
  function Initialize(persistedFlag: bool, ollama: bool, model: bool): (s: InstallState)
    ensures s.ollamaInstalled == ollama && s.modelInstalled == model
    ensures persistedFlag && !model ==> s.installing && s.progress == Some(StartProgress) && s.flag
    ensures persistedFlag && model ==> !s.installing && s.progress.None? && !s.flag
    ensures !persistedFlag ==> !s.installing && s.progress.None? && !s.flag
    ensures Coherent(s)
  {
    var s := InitialInstall.(ollamaInstalled := ollama, modelInstalled := model, flag := persistedFlag);
    if persistedFlag && !model then s.(installing := true, progress := Some(StartProgress))
    else if persistedFlag && model then s.(flag := false, installing := false, progress := None)
    else s
  }

  /** What can happen to the install signals after initialisation. */
  datatype InstallEvent =
    | InstallRequested                   // `installModel` called
    | InstallInvokeFailed                // the install command rejected
    | InstallProgress(payload: string)   // `ollama_install_progress`
    | InstallDone(modelStatus: bool)     // `ollama_install_done`, then a model-status check
    | DetectionTick(ollama: bool, model: bool)  // the periodic detection callback

  /** `installModel`'s synchronous part: a no-op while installing or once installed. */
  function RequestInstall(s: InstallState): (r: InstallState)
    ensures s.installing || s.modelInstalled ==> r == s
    ensures !s.installing && !s.modelInstalled ==>
      r == s.(installing := true, progress := Some(StartProgress), flag := true)
  {
    if s.installing || s.modelInstalled then s
    else s.(installing := true, progress := Some(StartProgress), flag := true)
  }

  /** One event applied to the install signals. */
  function OnInstallEvent(s: InstallState, e: InstallEvent): (r: InstallState)
    ensures e.InstallInvokeFailed? ==> !r.installing && r.progress.None? && !r.flag
    ensures e.InstallProgress? ==> r.flag && r.installing && r.progress == Some(e.payload)
    ensures e.InstallDone? && !s.installing ==> r == s
    ensures e.InstallDone? && s.installing ==>
      !r.installing && r.progress.None? && !r.flag && r.modelInstalled == e.modelStatus
    ensures e.DetectionTick? ==> r.ollamaInstalled == e.ollama && r.modelInstalled == e.model
    // only the detection tick and a completed install touch what is detected
    ensures !e.DetectionTick? && !(e.InstallDone? && s.installing) ==>
      r.ollamaInstalled == s.ollamaInstalled && r.modelInstalled == s.modelInstalled
  {
    match e
    case InstallRequested => RequestInstall(s)
    case InstallInvokeFailed => s.(installing := false, progress := None, flag := false)
    case InstallProgress(payload) => s.(flag := true, installing := true, progress := Some(payload))
    case InstallDone(modelStatus) =>
      if !s.installing then s
      else s.(installing := false, progress := None, flag := false, modelInstalled := modelStatus)
    case DetectionTick(ollama, model) =>
      // the status checks are not awaited: the resume test reads the previous model status
      var resume := !s.modelInstalled && s.flag;
      s.(ollamaInstalled := ollama, modelInstalled := model, installing := s.installing || resume)
  }

  /** Every event keeps the marker, the installing signal and the progress text coherent. */
  lemma EventsKeepCoherent(s: InstallState, e: InstallEvent)
    requires Coherent(s)
    ensures Coherent(OnInstallEvent(s, e))
  {
  }

  /** Replaying events from any reconciled start leaves the signals coherent. */
  function Replay(s: InstallState, events: seq<InstallEvent>): InstallState
    decreases |events|
  {
    if |events| == 0 then s else Replay(OnInstallEvent(s, events[0]), events[1..])
  }

  lemma {:induction false} ReplayKeepsCoherent(s: InstallState, events: seq<InstallEvent>)
    requires Coherent(s)
    ensures Coherent(Replay(s, events))
    decreases |events|
  {
    if |events| > 0 {
      EventsKeepCoherent(s, events[0]);
      ReplayKeepsCoherent(OnInstallEvent(s, events[0]), events[1..]);
    }
  }

  // ---------------------------------------------------------------------------
  // The `enableLocalAi` guard effect
  // ---------------------------------------------------------------------------

  /**
   * The constructor's effect: when toggling is impossible while local AI is
   * enabled, `patch({ enableLocalAi: false })`; otherwise nothing.
   */
  function GuardLocalAi(s: InstallState, cfg: PlayerConfig): (r: Patched)
    ensures r.config.enableLocalAi ==> CanToggleLocalAI(s)
    ensures !CanToggleLocalAI(s) && cfg.enableLocalAi ==> r.config == cfg.(enableLocalAi := false)
    ensures CanToggleLocalAI(s) || !cfg.enableLocalAi ==> r.config == cfg
    ensures r.effects == []
  {
    if !CanToggleLocalAI(s) && cfg.enableLocalAi then
      PatchQuietWhenNothingEffectfulChanges(cfg, NoFields.(enableLocalAi := Some(false)));
      Patch(cfg, NoFields.(enableLocalAi := Some(false)))
    else Patched(cfg, [])
  }

  /** The whole configuration data source: settings plus install signals. */
  datatype ConfigWorld = ConfigWorld(config: PlayerConfig, install: InstallState)

  /** An install event followed by the guard effect that reacts to the new signals. */
  function Step(w: ConfigWorld, e: InstallEvent): (r: ConfigWorld)
    ensures r.install == OnInstallEvent(w.install, e)
    ensures r.config.enableLocalAi ==> CanToggleLocalAI(r.install)
  {
    var install := OnInstallEvent(w.install, e);
    ConfigWorld(GuardLocalAi(install, w.config).config, install)
  }

  /** A user `patch` followed by the guard: enabling local AI without the model is undone at once. */
  function UserPatch(w: ConfigWorld, partial: ConfigPatch): (r: ConfigWorld)
    ensures r.install == w.install
    ensures r.config.enableLocalAi ==> CanToggleLocalAI(w.install)
    ensures CanToggleLocalAI(w.install) ==> r.config == Merge(w.config, partial)
  {
    var patched := Patch(w.config, partial);
    ConfigWorld(GuardLocalAi(w.install, patched.config).config, w.install)
  }
}
