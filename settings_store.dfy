/**
 * The settings store of `src/stores/settingsStore.ts` over the settings record of
 * `src/types/settings.ts`. A `Partial<…>` object is a record of optional fields; spreading
 * it over a full record keeps the full record's value wherever the partial one has none.
 * Applying the theme to the page and the debounced save are left out.
 */
module SettingsStore {
  import opened Wrappers

  datatype ThemeMode = Light | Dark | System
  datatype FontFamily = JetbrainsMono | FiraCode | Consolas | SystemMono

  datatype ThemeSettings = ThemeSettings(mode: ThemeMode)
  datatype EditorSettings = EditorSettings(fontFamily: FontFamily, fontSize: int, lineHeight: real,
                                           tabSize: int, wordWrap: bool, lineNumbers: bool)
  datatype PreviewSettings = PreviewSettings(fontSize: int, lineHeight: real, codeBlockFontSize: int, maxWidth: int)
  datatype GeneralSettings = GeneralSettings(autoSave: bool, autoSaveDelay: int, restoreLastFile: bool)
  datatype AppSettings = AppSettings(theme: ThemeSettings, editor: EditorSettings,
                                     preview: PreviewSettings, general: GeneralSettings)

  datatype ThemePatch = ThemePatch(mode: Option<ThemeMode>)
  datatype EditorPatch = EditorPatch(fontFamily: Option<FontFamily>, fontSize: Option<int>, lineHeight: Option<real>,
                                     tabSize: Option<int>, wordWrap: Option<bool>, lineNumbers: Option<bool>)
  datatype PreviewPatch = PreviewPatch(fontSize: Option<int>, lineHeight: Option<real>,
                                       codeBlockFontSize: Option<int>, maxWidth: Option<int>)
  datatype GeneralPatch = GeneralPatch(autoSave: Option<bool>, autoSaveDelay: Option<int>, restoreLastFile: Option<bool>)

  /** `Partial<AppSettings>` as stored: each category may be missing or partial. */
  datatype StoredSettings = StoredSettings(theme: Option<ThemePatch>, editor: Option<EditorPatch>,
                                           preview: Option<PreviewPatch>, general: Option<GeneralPatch>)

  datatype Category = Theme | Editor | Preview | General

  const DefaultTheme := ThemeSettings(System)
  const DefaultEditor := EditorSettings(JetbrainsMono, 14, 1.6, 2, true, true)
  const DefaultPreview := PreviewSettings(16, 1.6, 14, 800)
  const DefaultGeneral := GeneralSettings(false, 3000, true)
  const DefaultSettings := AppSettings(DefaultTheme, DefaultEditor, DefaultPreview, DefaultGeneral)

  /** A patched field: the patch's value when it has one. */
  function Pick<T>(p: Option<T>, d: T): T {
    if p.Some? then p.value else d
  }

  /** `{ ...base, ...patch }` for each category. */
  function PatchTheme(base: ThemeSettings, p: ThemePatch): ThemeSettings {
    ThemeSettings(Pick(p.mode, base.mode))
  }

  function PatchEditor(base: EditorSettings, p: EditorPatch): EditorSettings {
    EditorSettings(Pick(p.fontFamily, base.fontFamily), Pick(p.fontSize, base.fontSize),
                   Pick(p.lineHeight, base.lineHeight), Pick(p.tabSize, base.tabSize),
                   Pick(p.wordWrap, base.wordWrap), Pick(p.lineNumbers, base.lineNumbers))
  }

  function PatchPreview(base: PreviewSettings, p: PreviewPatch): PreviewSettings {
    PreviewSettings(Pick(p.fontSize, base.fontSize), Pick(p.lineHeight, base.lineHeight),
                    Pick(p.codeBlockFontSize, base.codeBlockFontSize), Pick(p.maxWidth, base.maxWidth))
  }

  function PatchGeneral(base: GeneralSettings, p: GeneralPatch): GeneralSettings {
    GeneralSettings(Pick(p.autoSave, base.autoSave), Pick(p.autoSaveDelay, base.autoSaveDelay),
                    Pick(p.restoreLastFile, base.restoreLastFile))
  }

  /** Spreading a missing category (`undefined`) adds nothing. */
  function PatchOpt<T, P>(base: T, p: Option<P>, patch: (T, P) -> T): T {
    if p.Some? then patch(base, p.value) else base
  }

  /** `mergeWithDefaults`: every category is the default overridden by the stored fields. */
  function MergeWithDefaults(stored: StoredSettings, defaults: AppSettings): AppSettings {
    AppSettings(PatchOpt(defaults.theme, stored.theme, PatchTheme),
                PatchOpt(defaults.editor, stored.editor, PatchEditor),
                PatchOpt(defaults.preview, stored.preview, PatchPreview),
                PatchOpt(defaults.general, stored.general, PatchGeneral))
  }

  /** A full settings record written out with every field present. */
  function Full(s: AppSettings): StoredSettings {
    StoredSettings(
      Some(ThemePatch(Some(s.theme.mode))),
      Some(EditorPatch(Some(s.editor.fontFamily), Some(s.editor.fontSize), Some(s.editor.lineHeight),
                       Some(s.editor.tabSize), Some(s.editor.wordWrap), Some(s.editor.lineNumbers))),
      Some(PreviewPatch(Some(s.preview.fontSize), Some(s.preview.lineHeight),
                        Some(s.preview.codeBlockFontSize), Some(s.preview.maxWidth))),
      Some(GeneralPatch(Some(s.general.autoSave), Some(s.general.autoSaveDelay), Some(s.general.restoreLastFile))))
  }

  const NothingStored := StoredSettings(None, None, None, None)

  /** Merging what was saved gives back the saved settings, whatever the defaults; merging
    * nothing gives the defaults. */
  lemma MergeRoundTrip(s: AppSettings, defaults: AppSettings)
    ensures MergeWithDefaults(Full(s), defaults) == s
    ensures MergeWithDefaults(NothingStored, defaults) == defaults
  {
  }

  /** Each stored field wins over the default, each missing one falls back to it. */
  lemma MergeFieldwise(stored: StoredSettings, defaults: AppSettings)
    ensures var m := MergeWithDefaults(stored, defaults);
      (stored.editor.Some? && stored.editor.value.fontSize.Some? ==> m.editor.fontSize == stored.editor.value.fontSize.value)
      && (stored.editor.None? ==> m.editor == defaults.editor)
      && (stored.theme.Some? && stored.theme.value.mode.None? ==> m.theme == defaults.theme)
      && (stored.general.Some? && stored.general.value.autoSaveDelay.None? ==> m.general.autoSaveDelay == defaults.general.autoSaveDelay)
  {
  }

  /** Applying the same patch twice is the same as applying it once. */
  lemma PatchIdempotent(s: AppSettings, t: ThemePatch, e: EditorPatch, p: PreviewPatch, g: GeneralPatch)
    ensures PatchTheme(PatchTheme(s.theme, t), t) == PatchTheme(s.theme, t)
    ensures PatchEditor(PatchEditor(s.editor, e), e) == PatchEditor(s.editor, e)
    ensures PatchPreview(PatchPreview(s.preview, p), p) == PatchPreview(s.preview, p)
    ensures PatchGeneral(PatchGeneral(s.general, g), g) == PatchGeneral(s.general, g)
  {
  }

  /** `{ ...settings, [category]: DEFAULT_SETTINGS[category] }`. */
  function CategoryReset(s: AppSettings, c: Category): AppSettings {
    match c
    case Theme => s.(theme := DefaultSettings.theme)
    case Editor => s.(editor := DefaultSettings.editor)
    case Preview => s.(preview := DefaultSettings.preview)
    case General => s.(general := DefaultSettings.general)
  }

  /** Whether category `c` of two settings records is the same. */
  predicate SameIn(a: AppSettings, b: AppSettings, c: Category) {
    match c
    case Theme => a.theme == b.theme
    case Editor => a.editor == b.editor
    case Preview => a.preview == b.preview
    case General => a.general == b.general
  }

  /** `resetCategory(c)` restores `c` to its default and leaves every other category;
    * resetting every category gives the defaults. */
  lemma ResetCategoryOnly(s: AppSettings, c: Category)
    ensures SameIn(CategoryReset(s, c), DefaultSettings, c)
    ensures forall d :: d != c ==> SameIn(CategoryReset(s, c), s, d)
    ensures CategoryReset(CategoryReset(CategoryReset(CategoryReset(s, Theme), Editor), Preview), General) == DefaultSettings
  {
  }

  /** `loadSettings` (state part): stored settings are merged over the defaults; then, when a
    * non-empty legacy theme text is present and the stored settings had no theme, a valid
    * mode from it is applied with `updateTheme`. The store is then loaded. */
  function LoadedSettings(current: AppSettings, stored: Option<StoredSettings>, oldTheme: Option<string>): AppSettings {
    var base := if stored.Some? then MergeWithDefaults(stored.value, DefaultSettings) else current;
    var noStoredTheme := stored.None? || stored.value.theme.None?;
    if oldTheme.Some? && oldTheme.value != "" && noStoredTheme then
      match LegacyMode(oldTheme.value)
      case Some(m) => base.(theme := PatchTheme(base.theme, ThemePatch(Some(m))))
      case None => base
    else base
  }

  /** The legacy `boltdown-theme` text, when it names a mode. */
  function LegacyMode(text: string): (r: Option<ThemeMode>)
    ensures r.Some? <==> text in {"light", "dark", "system"}
  {
    if text == "light" then Some(Light)
    else if text == "dark" then Some(Dark)
    else if text == "system" then Some(System)
    else None
  }

  /** Stored settings win over the current ones and over a legacy theme they already carry;
    * with nothing stored and no usable legacy theme, the settings are kept. */
  lemma LoadSettingsOutcome(current: AppSettings, stored: Option<StoredSettings>, oldTheme: Option<string>)
    ensures stored.Some? && stored.value.theme.Some? ==>
      LoadedSettings(current, stored, oldTheme) == MergeWithDefaults(stored.value, DefaultSettings)
    ensures stored.None? && (oldTheme.None? || LegacyMode(oldTheme.value).None?) ==>
      LoadedSettings(current, stored, oldTheme) == current
    ensures stored.None? && oldTheme.Some? && LegacyMode(oldTheme.value).Some? ==>
      LoadedSettings(current, stored, oldTheme) == current.(theme := ThemeSettings(LegacyMode(oldTheme.value).value))
  {
  }

  class Settings {
    var settings: AppSettings
    var isLoaded: bool

    constructor ()
      ensures settings == DefaultSettings && !isLoaded
    {
      settings := DefaultSettings;
      isLoaded := false;
    }

    method UpdateTheme(patch: ThemePatch)
      modifies this
      ensures settings == old(settings).(theme := PatchTheme(old(settings).theme, patch))
      ensures isLoaded == old(isLoaded)
    {
      settings := settings.(theme := PatchTheme(settings.theme, patch));
    }

    method UpdateEditor(patch: EditorPatch)
      modifies this
      ensures settings == old(settings).(editor := PatchEditor(old(settings).editor, patch))
      ensures isLoaded == old(isLoaded)
    {
      settings := settings.(editor := PatchEditor(settings.editor, patch));
    }

    method UpdatePreview(patch: PreviewPatch)
      modifies this
      ensures settings == old(settings).(preview := PatchPreview(old(settings).preview, patch))
      ensures isLoaded == old(isLoaded)
    {
      settings := settings.(preview := PatchPreview(settings.preview, patch));
    }

    method UpdateGeneral(patch: GeneralPatch)
      modifies this
      ensures settings == old(settings).(general := PatchGeneral(old(settings).general, patch))
      ensures isLoaded == old(isLoaded)
    {
      settings := settings.(general := PatchGeneral(settings.general, patch));
    }

    method ResetCategory(c: Category)
      modifies this
      ensures settings == CategoryReset(old(settings), c) && isLoaded == old(isLoaded)
    {
      match c
      case Theme => settings := settings.(theme := DefaultSettings.theme);
      case Editor => settings := settings.(editor := DefaultSettings.editor);
      case Preview => settings := settings.(preview := DefaultSettings.preview);
      case General => settings := settings.(general := DefaultSettings.general);
    }

    method ResetAll()
      modifies this
      ensures settings == DefaultSettings && isLoaded == old(isLoaded)
    {
      settings := DefaultSettings;
    }

    /** `loadSettings`, given what storage returned and the legacy theme text. */
    method LoadSettings(stored: Option<StoredSettings>, oldTheme: Option<string>)
      modifies this
      ensures settings == LoadedSettings(old(settings), stored, oldTheme)
      ensures isLoaded
    {
      if stored.Some? {
        settings := MergeWithDefaults(stored.value, DefaultSettings);
      }
      isLoaded := true;
      if oldTheme.Some? && oldTheme.value != "" && (stored.None? || stored.value.theme.None?) {
        var mode := LegacyMode(oldTheme.value);
        if mode.Some? {
          UpdateTheme(ThemePatch(Some(mode.value)));
        }
      }
    }
  }
}
