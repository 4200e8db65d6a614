/** The label extractor of the project's auxiliary functions: a file name such
    as `readings_2023_temp.csv` is cut at its first `.`, and the label is what
    follows the last `_` of what remains (`temp`). The input is the string that
    the argument's `name` attribute holds: the final component for a path, the
    path as opened for a file object. */
module Tools {
  import opened PyStr

  /** `fname.name.split('.')[0]`: the file name up to its first `.`, or the
      whole name when it has no `.`. */
  function Stem(name: string): (stem: string)
    ensures stem <= name && '.' !in stem
    ensures '.' !in name ==> stem == name
    ensures '.' in name ==> |stem| < |name| && name[|stem|] == '.'
  {
    FirstSegment(name, '.');
    Split(name, '.')[0]
  }

  /** `get_label`: the last `_`-segment of the text before the first `.`.
      Both indexings are total, because `Split` never returns an empty list.
      The label holds neither separator. */
  function GetLabel(name: string): (token: string)
    ensures '_' !in token
    ensures '.' !in token
  {
    LastSegment(Stem(name), '_');
    Last(Split(Stem(name), '_'))
  }

  /** The label is the suffix of the stem after its last `_` (all of the stem
      when there is none); what the stem is, `Stem` states. */
  lemma LabelCharacterization(name: string)
    ensures var stem, token := Stem(name), GetLabel(name);
      |token| <= |stem| && stem[|stem| - |token|..] == token
      && ('_' !in stem ==> token == stem)
      && ('_' in stem ==> |token| < |stem| && stem[|stem| - |token| - 1] == '_')
  {
    LastSegment(Stem(name), '_');
  }

  /** Conversely, a `_`-free suffix of the stem that is either the whole stem
      or preceded by `_` is the label: the characterization above determines
      the label. */
  lemma LabelUnique(name: string, r: string)
    requires var stem := Stem(name);
      |r| <= |stem| && stem[|stem| - |r|..] == r && '_' !in r
      && (r == stem || (|r| < |stem| && stem[|stem| - |r| - 1] == '_'))
    ensures r == GetLabel(name)
  {
    LastSegmentUnique(Stem(name), '_', r);
  }

  /** A stem without `_` is its own label: `plain.csv` gives `plain`. */
  lemma PlainStemIsLabel(name: string)
    requires '_' !in Stem(name)
    ensures GetLabel(name) == Stem(name)
  {
    LastSegment(Stem(name), '_');
  }

  /** A name without `.` is not truncated: the label is what follows the last
      `_` of the whole name. */
  lemma NoDotLabel(name: string)
    requires '.' !in name
    ensures GetLabel(name) == Last(Split(name, '_'))
  {
    SplitNoSep(name, '.');
  }

  /** Everything from the first `.` on is ignored: `a_b.tar.gz` has the label
      of `a_b`. */
  lemma IgnoresExtension(stem: string, ext: string)
    requires '.' !in stem
    ensures GetLabel(stem + ['.'] + ext) == GetLabel(stem)
  {
    SplitAtSep(stem, ext, '.');
    SplitNoSep(stem, '.');
  }

  /** Only the last `_` counts: whatever precedes it, and whatever follows the
      first `.`, the label is the `_`-free text between them. */
  lemma LastUnderscoreOnly(prefix: string, token: string, ext: string)
    requires '.' !in prefix && '.' !in token && '_' !in token
    requires ext == "" || ext[0] == '.'
    ensures GetLabel(prefix + ['_'] + token + ext) == token
  {
    var stem, name := prefix + ['_'] + token, prefix + ['_'] + token + ext;
    assert '.' !in stem;
    SplitNoSep(stem, '.');
    if ext == "" {
      assert name == stem;
    } else {
      assert name == stem + ['.'] + ext[1..];
      SplitAtSep(stem, ext[1..], '.');
    }
    assert Stem(name) == stem;
    SplitAtSep(prefix, token, '_');
    SplitNoSep(token, '_');
    assert Split(stem, '_') == Split(prefix, '_') + [token];
  }

  /** A name that starts with `.` has the empty label. */
  lemma LeadingDotEmptyLabel(ext: string)
    ensures GetLabel(['.'] + ext) == ""
  {
    assert ['.'] + ext == [] + ['.'] + ext;
    IgnoresExtension([], ext);
    SplitNoSep([], '_');
  }

  /** The label is a fixed point of the extractor: it has neither `.` nor
      `_`, so extracting again gives it back. */
  lemma GetLabelIdempotent(name: string)
    ensures GetLabel(GetLabel(name)) == GetLabel(name)
  {
    var token := GetLabel(name);
    SplitNoSep(token, '.');
    SplitNoSep(token, '_');
  }

  /** A stem that ends in `_` gives the empty label, whatever follows its
      first `.`. */
  lemma TrailingUnderscoreEmptyLabel(prefix: string, ext: string)
    requires '.' !in prefix
    requires ext == "" || ext[0] == '.'
    ensures GetLabel(prefix + ['_'] + ext) == ""
  {
    assert prefix + ['_'] + ext == prefix + ['_'] + "" + ext;
    LastUnderscoreOnly(prefix, "", ext);
  }

  /** The extractor on example file names, one lemma per name, each obtained
      from the general lemmas above. */
  lemma DataSensorLabel()
    ensures GetLabel("data_sensorA.csv") == "sensorA"
  {
    assert "data_sensorA.csv" == "data" + ['_'] + "sensorA" + ".csv";
    LastUnderscoreOnly("data", "sensorA", ".csv");
  }

  lemma ReadingsLabel()
    ensures GetLabel("readings_2023_temp.csv") == "temp"
  {
    assert "readings_2023_temp.csv" == "readings_2023" + ['_'] + "temp" + ".csv";
    LastUnderscoreOnly("readings_2023", "temp", ".csv");
  }

  lemma PlainLabel()
    ensures GetLabel("plain.csv") == "plain"
  {
    assert "plain.csv" == "plain" + ['.'] + "csv";
    IgnoresExtension("plain", "csv");
    NoDotLabel("plain");
    SplitNoSep("plain", '_');
  }

  lemma TarballLabel()
    ensures GetLabel("a_b.tar.gz") == "b"
  {
    assert "a_b.tar.gz" == "a" + ['_'] + "b" + ".tar.gz";
    LastUnderscoreOnly("a", "b", ".tar.gz");
  }

  lemma TrailingUnderscoreLabel()
    ensures GetLabel("abc_.csv") == ""
  {
    assert "abc_.csv" == "abc" + ['_'] + ".csv";
    TrailingUnderscoreEmptyLabel("abc", ".csv");
  }

  /** A file object opened as `./data/x_y.csv` has that whole path as its
      `name`, which starts with `.`, so its label is empty. */
  lemma OpenedFileLabel()
    ensures GetLabel("./data/x_y.csv") == ""
  {
    assert "./data/x_y.csv" == ['.'] + "/data/x_y.csv";
    LeadingDotEmptyLabel("/data/x_y.csv");
  }
}
