# Label extraction from data file names

This project models the label extractor `get_label` of the combo-quality-control
auxiliary functions (`tools.py`). Given an object with a `.name` string, such
as a path, `get_label` takes that name, keeps the part before the first `.`,
splits that part on `_`, and returns the last piece. For example, `readings_2023_temp.csv` gives `temp`
and `plain.csv` gives `plain`.

The model has two modules:

- `PyStr` (`pystr.dfy`) models Python's `str.split(sep)` for a one-character
  separator, together with `sep.join(parts)` and `xs[-1]`. `Split` is
  defined by recursion from the front of the string. The lemmas prove that it
  behaves as Python's split does:
  - the result has one more segment than the string has separators, so it is never empty;
  - no segment contains the separator;
  - joining the segments back with the separator restores the string, and
    splitting a join of separator-free parts gives those parts back, so
    `Split` is the only such decomposition;
  - `[0]` is the text before the first separator, and `[-1]` is the text
    after the last one. Each of these is stated and proved in both directions.
- `Tools` (`tools.dfy`) defines `GetLabel(name) = Last(Split(Stem(name), '_'))`,
  where `Stem(name) = Split(name, '.')[0]`. Its lemmas cover the label's
  exact characterization, the special cases (no `_`, no `.`, a leading `.`,
  a trailing `_`), the fact that everything from the first `.` onward is
  ignored, idempotence, and a handful of example file names.

The input of `GetLabel` is the string that `.name` returns: the final
component for a path, the path as opened for a file object.

## Model

| member | source | states |
|---|---|---|
| `PyStr.Last` | tools.py:15 | Python's `[-1]`: defined only on a non-empty sequence, which `Split` always returns, and yields one of its elements |
| `PyStr.Split` | tools.py:15 | `s.split(sep)` never returns an empty list, so both `[0]` and `[-1]` on line 15 are defined for every file name |
| `PyStr.SplitCount` | tools.py:15 | the split has exactly one more segment than the string has separators |
| `PyStr.SplitSepFree` | tools.py:15 | no segment of `s.split(sep)` contains `sep` |
| `PyStr.JoinSplit` | tools.py:15 | joining the segments with the separator gives the original string back |
| `PyStr.SplitSingle` | tools.py:15 | the split has a single segment exactly when the string has no separator |
| `PyStr.SplitNoSep` | tools.py:15 | a string without the separator splits into the one-element list holding itself |
| `PyStr.SplitAtSep` | tools.py:15 | the segments of `t + sep + u` are the segments of `t` followed by those of `u` |
| `PyStr.SplitJoin` | tools.py:15 | splitting a join of separator-free parts (at least one) gives those parts back |
| `PyStr.SplitUnique` | tools.py:15 | any non-empty list of separator-free parts that joins to `s` is `s.split(sep)` |
| `PyStr.FirstSegment` | tools.py:15 | `s.split(sep)[0]` is a separator-free prefix of `s`; it is all of `s` when `s` has no separator, and is otherwise followed by the separator |
| `PyStr.FirstSegmentUnique` | tools.py:15 | any prefix with the properties of `FirstSegment` is `s.split(sep)[0]` |
| `PyStr.LastSegment` | tools.py:15 | `s.split(sep)[-1]` is a separator-free suffix of `s`; it is all of `s` when `s` has no separator, and is otherwise preceded by the separator |
| `PyStr.LastSegmentUnique` | tools.py:15 | any suffix with the properties of `LastSegment` is `s.split(sep)[-1]` |
| `Tools.Stem` | tools.py:15 | `fname.name.split('.')[0]`: a `.`-free prefix of the name, the whole name when it has no `.`, and otherwise followed by the first `.` (its meaning comes from `PyStr.FirstSegment` and `PyStr.FirstSegmentUnique` with separator `.`) |
| `Tools.GetLabel` | tools.py:14-15 | the label contains neither `_` nor `.` |
| `Tools.LabelCharacterization` | tools.py:15 | the label is a suffix of the stem (the name up to its first `.`, as `Tools.Stem` states), namely the text after the stem's last `_` (the whole stem when there is no `_`) |
| `Tools.LabelUnique` | tools.py:15 | any `_`-free suffix of the stem that is the whole stem or is preceded by `_` is the label, so the characterization determines the label |
| `Tools.PlainStemIsLabel` | tools.py:15 | if the part before the first `.` has no `_`, the label is that whole part |
| `Tools.NoDotLabel` | tools.py:15 | if the name has no `.`, the label is the last `_`-segment of the whole name |
| `Tools.IgnoresExtension` | tools.py:15 | everything from the first `.` onward is ignored: `stem.ext` has the label of `stem` |
| `Tools.LastUnderscoreOnly` | tools.py:15 | only the last `_` matters: `prefix_token` followed by nothing or by a `.`-suffix has the label `token` |
| `Tools.LeadingDotEmptyLabel` | tools.py:15 | a name starting with `.` has the empty label |
| `Tools.TrailingUnderscoreEmptyLabel` | tools.py:15 | a name whose part before the first `.` ends in `_` has the empty label |
| `Tools.GetLabelIdempotent` | tools.py:15 | applying the extractor to its own result gives that result back |
| `Tools.DataSensorLabel` | tools.py:15 | `data_sensorA.csv` gives `sensorA` |
| `Tools.ReadingsLabel` | tools.py:15 | `readings_2023_temp.csv` gives `temp` |
| `Tools.PlainLabel` | tools.py:15 | `plain.csv` gives `plain` |
| `Tools.TarballLabel` | tools.py:15 | `a_b.tar.gz` gives `b` |
| `Tools.OpenedFileLabel` | tools.py:15 | for a file opened as `./data/x_y.csv`, whose `.name` is that whole relative path, the label is empty, because the name starts with `.` |
| `Tools.TrailingUnderscoreLabel` | tools.py:15 | `abc_.csv`, whose stem ends in `_`, gives the empty label (an instance of `TrailingUnderscoreEmptyLabel`) |

## Left out

- `csv2ndarray` (tools.py:8-12) is not modelled. It reads a file through the pandas CSV reader and replaces NaN through numpy. That is file I/O and floating-point work inside library calls, and the repository adds no logic of its own to it.
- Reading the `.name` attribute on line 15 is left to the caller's object. `get_label` accepts any object whose `.name` is a string: a `pathlib` path, an `os.DirEntry` or an open file. A `str` lacks `.name`. The model takes that string as its input and has no string-or-path normalisation.
- Python strings are sequences of code points and may hold lone surrogates (Python decodes undecodable bytes of a file name to them). The model uses Dafny `string` (`seq<char>`), whose characters are Unicode scalar values and so exclude surrogates; such file names cannot be written in the model. The extractor inspects only `.` and `_`, so no behaviour of it depends on this.
