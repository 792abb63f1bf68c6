/** `NameFormatterContextual`: one naming configuration per kind of name
    (file, class, property).  A kind with no configuration keeps names as
    they are; only file names take an extension. */
module NameFormatterContextual {
  import opened Common
  import opened NameFormatter

  datatype NamingOptions = NamingOptions(style: CaseStyle, prefix: Option<string>, suffix: Option<string>)

  datatype FileNamingOptions = FileNamingOptions(
    style: CaseStyle,
    prefix: Option<string>,
    suffix: Option<string>,
    fileExtension: Option<string>)

  /** The three optional sections (`file`, `class`, `property`). */
  datatype FormatterOptions = FormatterOptions(
    fileNaming: Option<FileNamingOptions>,
    classNaming: Option<NamingOptions>,
    propertyNaming: Option<NamingOptions>)

  /** `format`: an absent section leaves the name alone; a present one
      formats it without an extension.  `None` is the camel-case exception. */
  function Format(name: string, config: Option<NamingOptions>): (r: Option<string>)
    ensures config.None? ==> r == Some(name)
    ensures config.Some? ==> r == FormatName(name, config.value.style, config.value.prefix, config.value.suffix, None)
    ensures r.None? <==> config.Some? && config.value.style == Camel
                         && !HasWords(ApplyAffixes(name, config.value.prefix, config.value.suffix))
  {
    match config
    case None => Some(name)
    case Some(c) => FormatName(name, c.style, c.prefix, c.suffix, None)
  }

  /** `toFileFormat`. */
  function ToFileFormat(o: FormatterOptions, name: string): (r: Option<string>)
    ensures o.fileNaming.None? ==> r == Some(name)
    ensures o.fileNaming.Some? ==> var c := o.fileNaming.value;
                                   r == FormatName(name, c.style, c.prefix, c.suffix, c.fileExtension)
    ensures r.None? <==> o.fileNaming.Some? && o.fileNaming.value.style == Camel
                         && !HasWords(ApplyAffixes(name, o.fileNaming.value.prefix, o.fileNaming.value.suffix))
  {
    match o.fileNaming
    case None => Some(name)
    case Some(c) => FormatName(name, c.style, c.prefix, c.suffix, c.fileExtension)
  }

  /** `toClassFormat`. */
  function ToClassFormat(o: FormatterOptions, name: string): (r: Option<string>)
    ensures o.classNaming.None? ==> r == Some(name)
    ensures o.classNaming.Some? ==> var c := o.classNaming.value;
                                    r == FormatName(name, c.style, c.prefix, c.suffix, None)
    ensures r.None? <==> o.classNaming.Some? && o.classNaming.value.style == Camel
                         && !HasWords(ApplyAffixes(name, o.classNaming.value.prefix, o.classNaming.value.suffix))
  {
    Format(name, o.classNaming)
  }

  /** `toPropertyFormat`. */
  function ToPropertyFormat(o: FormatterOptions, name: string): (r: Option<string>)
    ensures o.propertyNaming.None? ==> r == Some(name)
    ensures o.propertyNaming.Some? ==> var c := o.propertyNaming.value;
                                       r == FormatName(name, c.style, c.prefix, c.suffix, None)
    ensures r.None? <==> o.propertyNaming.Some? && o.propertyNaming.value.style == Camel
                         && !HasWords(ApplyAffixes(name, o.propertyNaming.value.prefix, o.propertyNaming.value.suffix))
  {
    Format(name, o.propertyNaming)
  }

  /** Each kind of name reads its own section and no other. */
  lemma SectionsIndependent(o: FormatterOptions, f: Option<FileNamingOptions>, c: Option<NamingOptions>,
                            p: Option<NamingOptions>, name: string)
    ensures ToFileFormat(o, name) == ToFileFormat(o.(classNaming := c, propertyNaming := p), name)
    ensures ToClassFormat(o, name) == ToClassFormat(o.(fileNaming := f, propertyNaming := p), name)
    ensures ToPropertyFormat(o, name) == ToPropertyFormat(o.(fileNaming := f, classNaming := c), name)
  {
  }

  /** A class or property name is formatted exactly as a file name would be
      under the same case and affixes with no extension. */
  lemma ClassIsFileWithoutExtension(o: FormatterOptions, name: string)
    requires o.classNaming.Some?
    ensures var c := o.classNaming.value;
            ToClassFormat(o, name)
            == ToFileFormat(o.(fileNaming := Some(FileNamingOptions(c.style, c.prefix, c.suffix, None))), name)
  {
  }

  /** With an extension configured, a formatted file name ends in a dot and
      that extension, after the re-cased name. */
  lemma FileExtensionAppended(o: FormatterOptions, name: string)
    requires o.fileNaming.Some? && OrEmpty(o.fileNaming.value.fileExtension) != ""
    requires ToFileFormat(o, name).Some?
    ensures var c := o.fileNaming.value;
            var ext := c.fileExtension.value;
            var cased := ApplyCase(ApplyAffixes(name, c.prefix, c.suffix), c.style);
            && cased.Some?
            && ToFileFormat(o, name).value == cased.value + "." + ext
  {
  }

  /** Snake and kebab configurations produce names without capitals. */
  lemma PropertyLowercase(o: FormatterOptions, name: string)
    requires o.propertyNaming.Some?
    requires o.propertyNaming.value.style == Snake || o.propertyNaming.value.style == Kebab
    ensures ToPropertyFormat(o, name).Some? && NoUpper(ToPropertyFormat(o, name).value)
  {
  }
}
