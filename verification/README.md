# Label and feature-name transformations of the HAR data loader

A functional model of the three pure transformations inside the
human-activity-recognition loading script `Coursework/load.py`:

- **Feature-name disambiguation** (lines 17-24): every feature name gets `"_"`
  and the decimal text of its 0-based row position appended. The model proves
  that the position can be read back from the text after the last underscore,
  so the renamed features are pairwise distinct even when the original names
  repeat or already contain underscores and digits.
- **Activity map** (line 29) and **id-to-name mapping** (lines 38-39):
  `dict(zip(ids, names))` keeps, for each id, the name of its last pair;
  `Series.map` turns an id into its name, or into NaN when the map lacks it.
- **Binary label** (lines 42-49): `to_binary_label` gives 1 for the three
  walking activities and 0 for anything else, and is applied cell by cell.

Modules: `Wrappers` (Option), `Cells` (a cell value: string, integer or NaN),
`Decimal` (Python's `str` of a non-negative integer and its exact inverse),
`FeatureNames`, `Activities`, `BinaryLabel`.

Where the code and its comments disagree, the model follows the code: the
comments at `Coursework/load.py:17` and `:22` say only duplicate names are
suffixed, but line 23 suffixes every name, and `SuffixFeatureNames` proves that
every name changes.

Other behaviour of the code that the model keeps:

- The suffix is the 0-based row position (`features_df.index`), not the 1-based
  `idx` column read at line 18.
- `Series.map` yields NaN for an id missing from the activity map, and
  `to_binary_label` turns NaN into 0.
- `to_binary_label` returns an integer, and no integer is in the list of
  walking names, so applying it to its own result always gives 0
  (`BinaryLabel.BinaryLabelOfLabelIsZero`).

## Model

| member | source | states |
|---|---|---|
| Decimal.FromNat | Coursework/load.py:23 | `str` of a row position is canonical decimal text (non-empty, digits only, no leading zero), and is "0" exactly for position 0 |
| Decimal.ToNatFromNat | Coursework/load.py:23 | parsing the decimal text of a position gives the position back |
| Decimal.FromNatToNat | Coursework/load.py:23 | every canonical decimal text is the `str` of the number it parses to, so printing and parsing are mutually inverse |
| Decimal.FromNatInjective | Coursework/load.py:23 | two positions print to the same text exactly when they are equal |
| FeatureNames.SplitSuffixed | Coursework/load.py:23 | the text after the last underscore of a renamed feature is its position and the text before it is its original name, even when that name has underscores |
| FeatureNames.SplitSuffixExact | Coursework/load.py:23 | reading back succeeds with (name, position) if and only if the text is that name suffixed with that position |
| FeatureNames.SuffixedInjective | Coursework/load.py:17-23 | two renamed features are equal if and only if their original names and their positions are equal |
| FeatureNames.SuffixFeatureNames | Coursework/load.py:17-24 | the renamed list has the table's length and order; entry i is the feature of row i, "_", and the text of i (not the row's idx); entries are pairwise distinct; every name changes, unique or not |
| Activities.Zip | Coursework/load.py:29 | `zip` of the id and name columns pairs entry k with entry k and stops at the shorter column |
| Activities.DictOf | Coursework/load.py:29 | `dict` of pairs has exactly the ids that occur as keys, and an id holds the name of its last pair |
| Activities.ActivityMap | Coursework/load.py:28-29 | the activity map's keys are exactly the ids that have a partner name, and a repeated id keeps the name of its last row |
| Activities.MapIds | Coursework/load.py:38-39 | the mapped column has the label column's length; a mapped id becomes its name, an unmapped id becomes NaN |
| Activities.MapIdsAppend | Coursework/load.py:38-39 | mapping works cell by cell: the mapping of two concatenated columns is the concatenation of their mappings |
| Activities.MapIdsCovered | Coursework/load.py:38-39 | when the map covers every id, no cell is NaN and every cell is a name held by the map |
| BinaryLabel.ToBinaryLabel | Coursework/load.py:42-46 | the label is 0 or 1, it is 1 exactly for WALKING, WALKING_UPSTAIRS and WALKING_DOWNSTAIRS, and NaN or an integer gives 0 |
| BinaryLabel.BinaryColumn | Coursework/load.py:48-49 | the Binary column has the Activity column's length and entry i is the label of Activity entry i |
| BinaryLabel.BinaryLabelOfLabelIsZero | Coursework/load.py:42-46 | applying the label function to its own result always gives 0 |
| BinaryLabel.LabelSplit | Coursework/load.py:38-49 | for one split, both new columns have the id column's length; a mapped id's Activity cell is its name; Binary entry i is the label of Activity entry i; row i is labelled 1 exactly when its id is in the map and names a walking activity; an unmapped id gives NaN and 0 |

## Left out

- File reading (`pd.read_csv` with whitespace separation) and the path constants (`Coursework/load.py:7-13`, `:18`, `:28`, `:32-35`): this is I/O inside pandas. The model takes the parsed columns as inputs.
- The floating-point feature matrices `X_train` and `X_test`: their contents are never transformed. The renamed feature list only becomes their column names.
- Row-count agreement between a feature matrix and its label vector: the script never checks it, so the model does not claim it.
- `astype(str)` on the feature column: feature names are taken to be text already. A name pandas parsed as a number would first be printed, which is not modelled.
- The concrete assignment of ids 1-6 to activity names: it comes from the data file, so the label lemmas hold for an arbitrary activity map.
- The pandas and numpy column machinery (DataFrame, Series, `apply`, `map`, numpy integer types): columns are sequences, the activity map is a Dafny `map`, NaN is a cell value.
