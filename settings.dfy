/**
 * `normalizeSettings` of src/settings.ts: the exclude flags default to
 * `false`, the file reader defaults to reading the file without its byte
 * order mark, every property the caller supplies overrides its default, and
 * `paths` is always the normalised copy of the supplied paths.
 */
module Settings {
  import opened Wrappers
  import opened OrderedMaps
  import opened Packages

  /**
   * An optional property of the settings object: left out, or supplied.  A
   * supplied value may itself be `undefined` (`Given(None)`), which the object
   * spread copies like any other value.
   */
  datatype Field<T> = Omitted | Given(value: Option<T>)

  /** `ISettings`, over a file reader type `R`. */
  datatype Settings<R> = Settings(
    paths: PackagePaths,
    excludeDevDependencies: Field<bool>,
    excludeOptionalDependencies: Field<bool>,
    excludePeerDependencies: Field<bool>,
    fileReader: Field<R>)

  /** The object `normalizeSettings` returns. */
  datatype NormalizedSettings<R> = NormalizedSettings(
    excludeDevDependencies: Option<bool>,
    excludeOptionalDependencies: Option<bool>,
    excludePeerDependencies: Option<bool>,
    fileReader: Option<R>,
    paths: OrderedMap<string>)

  /** A property of the object literal: the default, unless the spread supplies it. */
  function Merge<T>(default: T, supplied: Field<T>): (r: Option<T>)
    ensures supplied.Given? ==> r == supplied.value
    ensures r == Some(default) || supplied == Given(r)
  {
    match supplied
    case Omitted => Some(default)
    case Given(v) => v
  }

  /**
   * `normalizeSettings(settings)`; `defaultReader` stands for the built-in
   * reader closure, which reads a file and strips its byte order mark.
   */
  function NormalizeSettings<R>(settings: Settings<R>, defaultReader: R): (r: NormalizedSettings<R>)
    requires settings.paths.Valid()
    ensures r.paths == settings.paths.Entries() && r.paths.Valid()
    ensures r.excludeDevDependencies == Some(false) || settings.excludeDevDependencies == Given(r.excludeDevDependencies)
    ensures r.excludeOptionalDependencies == Some(false) ||
      settings.excludeOptionalDependencies == Given(r.excludeOptionalDependencies)
    ensures r.excludePeerDependencies == Some(false) || settings.excludePeerDependencies == Given(r.excludePeerDependencies)
    ensures r.fileReader == Some(defaultReader) || settings.fileReader == Given(r.fileReader)
  {
    NormalizedSettings(
      Merge(false, settings.excludeDevDependencies),
      Merge(false, settings.excludeOptionalDependencies),
      Merge(false, settings.excludePeerDependencies),
      Merge(defaultReader, settings.fileReader),
      settings.paths.Entries())
  }

  /** Settings that supply only the paths get `false` for every flag and the default reader. */
  lemma OmittedFieldsGetDefaults<R>(paths: PackagePaths, defaultReader: R)
    requires paths.Valid()
    ensures NormalizeSettings(Settings(paths, Omitted, Omitted, Omitted, Omitted), defaultReader) ==
      NormalizedSettings(Some(false), Some(false), Some(false), Some(defaultReader), paths.Entries())
  {
  }

  /**
   * Each supplied property wins over its default, whatever the default is,
   * each flag left out is `false`, and `paths` is the normalised copy.
   */
  lemma SuppliedFieldsWin<R>(settings: Settings<R>, defaultReader: R)
    requires settings.paths.Valid()
    ensures var r := NormalizeSettings(settings, defaultReader);
      r.paths == settings.paths.Entries() &&
      (settings.excludeDevDependencies.Given? ==> r.excludeDevDependencies == settings.excludeDevDependencies.value) &&
      (settings.excludeOptionalDependencies.Given? ==> r.excludeOptionalDependencies == settings.excludeOptionalDependencies.value) &&
      (settings.excludePeerDependencies.Given? ==> r.excludePeerDependencies == settings.excludePeerDependencies.value) &&
      (settings.fileReader.Given? ==> r.fileReader == settings.fileReader.value) &&
      (settings.excludeDevDependencies.Omitted? ==> r.excludeDevDependencies == Some(false)) &&
      (settings.excludeOptionalDependencies.Omitted? ==> r.excludeOptionalDependencies == Some(false)) &&
      (settings.excludePeerDependencies.Omitted? ==> r.excludePeerDependencies == Some(false)) &&
      (settings.fileReader.Omitted? ==> r.fileReader == Some(defaultReader))
  {
  }

  /** The normalised object, supplied again as settings (its `paths` as a `Map`). */
  function Resupplied<R>(r: NormalizedSettings<R>): Settings<R>
  {
    Settings(FromMap(r.paths), Given(r.excludeDevDependencies), Given(r.excludeOptionalDependencies),
      Given(r.excludePeerDependencies), Given(r.fileReader))
  }

  /** Normalising settings that are already normalised changes nothing. */
  lemma NormalizeSettingsIdempotent<R>(settings: Settings<R>, defaultReader: R, otherDefault: R)
    requires settings.paths.Valid()
    ensures NormalizeSettings(Resupplied(NormalizeSettings(settings, defaultReader)), otherDefault) ==
      NormalizeSettings(settings, defaultReader)
  {
    var r := NormalizeSettings(settings, defaultReader);
    assert FromMap(r.paths).Entries() == r.paths;
  }
}
