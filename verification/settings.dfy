/**
  `load_settings`: options are taken from the settings file where present and
  from the built-in defaults otherwise; the file is rewritten (with the merged
  values) unless every required option was found. Values are kept as the raw
  strings of the file: their parsing is not part of this model.
 */
module Settings {
  import opened Optional

  /** One section of the settings file: option name to raw value. */
  type Section = map<string, string>

  /**
    The parsed settings file: section name to section, with option names as
    configparser stores them (already lower-cased).
   */
  type Ini = map<string, Section>

  /** configparser's defaults section: its options show through in every other section. */
  const DefaultSection: string := "DEFAULT"

  /**
    What `has_option` and `get` see in `section`: its own options over those
    of the defaults section.
   */
  function Visible(ini: Ini, section: string): (r: Section)
    requires section in ini
    ensures forall o :: o in r <==> o in ini[section] || (DefaultSection in ini && o in ini[DefaultSection])
    ensures forall o :: o in ini[section] ==> r[o] == ini[section][o]
    ensures forall o :: o in r && o !in ini[section] ==> r[o] == ini[DefaultSection][o]
  {
    (if DefaultSection in ini then ini[DefaultSection] else map[]) + ini[section]
  }

  datatype Settings = Settings(
    localTimezone: string,
    sourcePath: string,
    destPath: string,
    dateRangeMin: string,
    dateRangeMax: string,
    folderFormat: string,
    validate: string,
    verbose: string,
    test: string)

  /** The options of section "Device" whose absence makes the file invalid. */
  const DeviceRequired: set<string> := {"local_timezone", "source_path", "dest_path", "date_range_min"}

  /** The options of section "Options", all of them required. */
  const OptionsRequired: set<string> := {"folder_format", "validate", "verbose", "test"}

  /** The settings in effect, and whether the file was valid (an invalid one is rewritten). */
  datatype Loaded = Loaded(settings: Settings, valid: bool)
  {
    /** `save_settings` runs exactly when the file was not valid. */
    predicate Rewrites()
    {
      !valid
    }
  }

  /** The file was found, has both sections, and every required option. */
  ghost predicate ValidFile(file: Option<Ini>)
  {
    && file.Some?
    && "Device" in file.value && "Options" in file.value
    && (forall o :: o in DeviceRequired ==> o in Visible(file.value, "Device"))
    && (forall o :: o in OptionsRequired ==> o in Visible(file.value, "Options"))
  }

  /** The value of `option` in `section` when the file has it, `fallback` otherwise. */
  ghost function FromFile(file: Option<Ini>, section: string, option: string, fallback: string): string
  {
    if file.Some? && section in file.value && option in Visible(file.value, section)
    then Visible(file.value, section)[option] else fallback
  }

  /** `parser.has_option` then `parser.get`: the value and whether it was there. */
  function Pick(section: Section, option: string, fallback: string): (string, bool)
  {
    if option in section then (section[option], true) else (fallback, false)
  }

  /** Lines 262-284: the "Device" section; a missing `date_range_max` falls back to `now`. */
  function LoadDevice(section: Section, s: Settings, now: string): (Settings, bool)
  {
    var (timezone, ok1) := Pick(section, "local_timezone", s.localTimezone);
    var (source, ok2) := Pick(section, "source_path", s.sourcePath);
    var (dest, ok3) := Pick(section, "dest_path", s.destPath);
    var (lo, ok4) := Pick(section, "date_range_min", s.dateRangeMin);
    var (hi, _) := Pick(section, "date_range_max", now);
    (s.(localTimezone := timezone, sourcePath := source, destPath := dest,
        dateRangeMin := lo, dateRangeMax := hi),
     ok1 && ok2 && ok3 && ok4)
  }

  /** Lines 285-303: the "Options" section. */
  function LoadOptions(section: Section, s: Settings): (Settings, bool)
  {
    var (format, ok1) := Pick(section, "folder_format", s.folderFormat);
    var (validate, ok2) := Pick(section, "validate", s.validate);
    var (verbose, ok3) := Pick(section, "verbose", s.verbose);
    var (test, ok4) := Pick(section, "test", s.test);
    (s.(folderFormat := format, validate := validate, verbose := verbose, test := test),
     ok1 && ok2 && ok3 && ok4)
  }

  /**
    Lines 257-307. The file is valid exactly when it was found with both
    sections and every option except `date_range_max`; each setting comes
    from the file when the file has it, even when the file is invalid.
   */
  function LoadSettings(file: Option<Ini>, defaults: Settings, now: string): (r: Loaded)
    ensures r.valid <==> ValidFile(file)
    ensures r.Rewrites() <==> !ValidFile(file)
    ensures r.settings.localTimezone == FromFile(file, "Device", "local_timezone", defaults.localTimezone)
    ensures r.settings.sourcePath == FromFile(file, "Device", "source_path", defaults.sourcePath)
    ensures r.settings.destPath == FromFile(file, "Device", "dest_path", defaults.destPath)
    ensures r.settings.dateRangeMin == FromFile(file, "Device", "date_range_min", defaults.dateRangeMin)
    ensures r.settings.dateRangeMax ==
              FromFile(file, "Device", "date_range_max",
                       if file.Some? && "Device" in file.value then now else defaults.dateRangeMax)
    ensures r.settings.folderFormat == FromFile(file, "Options", "folder_format", defaults.folderFormat)
    ensures r.settings.validate == FromFile(file, "Options", "validate", defaults.validate)
    ensures r.settings.verbose == FromFile(file, "Options", "verbose", defaults.verbose)
    ensures r.settings.test == FromFile(file, "Options", "test", defaults.test)
  {
    match file
    case None => Loaded(defaults, false)
    case Some(ini) =>
      var (s1, deviceOk) := if "Device" in ini then LoadDevice(Visible(ini, "Device"), defaults, now) else (defaults, false);
      var (s2, optionsOk) := if "Options" in ini then LoadOptions(Visible(ini, "Options"), s1) else (s1, false);
      Loaded(s2, deviceOk && optionsOk)
  }

  /** `option` taken out of `section` and out of the defaults section: the file no longer has it. */
  function Drop(ini: Ini, section: string, option: string): (r: Ini)
    requires section in ini && section != DefaultSection
    ensures r.Keys == ini.Keys && option !in Visible(r, section)
    ensures forall s, o :: s in ini && s != DefaultSection && o != option ==>
                           (o in Visible(r, s) <==> o in Visible(ini, s))
  {
    var dropped := ini[section := ini[section] - {option}];
    if DefaultSection in ini then dropped[DefaultSection := ini[DefaultSection] - {option}] else dropped
  }

  /** A valid file without `date_range_max` stays valid; the upper bound becomes `now`. */
  lemma MissingUpperBoundIsNotAnError(ini: Ini, defaults: Settings, now: string)
    requires ValidFile(Some(ini))
    ensures var r := LoadSettings(Some(Drop(ini, "Device", "date_range_max")), defaults, now);
            r.valid && r.settings.dateRangeMax == now
  {
    var ini' := Drop(ini, "Device", "date_range_max");
    assert forall o :: o in DeviceRequired ==> o in Visible(ini', "Device");
    assert forall o :: o in OptionsRequired ==> o in Visible(ini', "Options");
  }

  /** A file that lacks any other required option is invalid and gets rewritten. */
  lemma {:induction false} MissingRequiredOptionForcesRewrite(ini: Ini, section: string, option: string, defaults: Settings, now: string)
    requires section in ini
    requires (section == "Device" && option in DeviceRequired) || (section == "Options" && option in OptionsRequired)
    ensures LoadSettings(Some(Drop(ini, section, option)), defaults, now).Rewrites()
  {
    var ini' := Drop(ini, section, option);
    assert option !in Visible(ini', section);
  }

  /**
    A required option may come from the defaults section: a file whose
    "Options" section lacks `test` but whose defaults section has it is still
    valid, and `test` takes the default section's value.
   */
  lemma DefaultSectionSuppliesOption(ini: Ini, defaults: Settings, now: string)
    requires ValidFile(Some(ini))
    requires DefaultSection in ini && "test" in ini[DefaultSection]
    ensures var file := ini["Options" := ini["Options"] - {"test"}];
            var r := LoadSettings(Some(file), defaults, now);
            r.valid && r.settings.test == ini[DefaultSection]["test"]
  {
    var file := ini["Options" := ini["Options"] - {"test"}];
    assert Visible(file, "Device") == Visible(ini, "Device");
    assert forall o :: o in OptionsRequired ==> o in Visible(file, "Options");
    assert Visible(file, "Options")["test"] == ini[DefaultSection]["test"];
  }
}
