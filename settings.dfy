/** The resolved options the mutation engine and the estimator read, with the
    defaults of psudohash.py, and the conditions under which the estimator's
    closed form matches what the engine writes. */
module Settings {
  import opened Text

  /** Lower-case letter to its list of substitute glyphs. */
  type Table = map<char, seq<string>>

  datatype Config = Config(
    transformations: Table,
    /** The digit-padding level; 0 stands for numbering switched off. The
        default is Python's `True`, which `range` reads as 1. */
    appendNumbering: nat,
    numberingLimit: int,
    years: seq<string>,
    yearSeparators: seq<string>,
    commonPaddings: seq<string>,
    paddingsBefore: bool,
    paddingsAfter: bool,
    customPaddingsOnly: bool)

  const DefaultTable: Table := map[
    'a' := ["@", "4"], 'b' := ["8"], 'e' := ["3"], 'g' := ["9", "6"],
    'i' := ["1", "!"], 'o' := ["0"], 's' := ["$", "5"], 't' := ["7"]]

  const DefaultYearSeparators: seq<string> := ["", "_", "-", "@"]
  const DefaultNumberingLimit: int := 50
  const DefaultNumberingLevel: nat := 1

  /** Every key of the table is a lower-case letter. */
  predicate KeysLower(t: Table)
  {
    forall c :: c in t ==> IsLowerLetter(c)
  }

  /** The glyphs of `c` are single characters, pairwise distinct, and differ
      from both cases of `c`. */
  predicate SimpleGlyphs(c: char, gs: seq<string>)
  {
    && (forall j :: 0 <= j < |gs| ==> |gs[j]| == 1 && gs[j][0] != Upper(c) && gs[j][0] != Lower(c))
    && (forall j, k :: 0 <= j < k < |gs| ==> gs[j] != gs[k])
  }

  /** The table meets the conditions under which substituting at one index
      never shifts the other indices and never produces a case variant. */
  predicate SimpleTable(t: Table)
  {
    KeysLower(t) && forall c :: c in t ==> SimpleGlyphs(c, t[c])
  }

  /** No character of the string is an upper-case letter (it went through `str.lower`). */
  predicate Lowered(s: string)
  {
    forall i :: 0 <= i < |s| ==> !IsUpperLetter(s[i])
  }

  /** The conditions under which the estimate equals the generated output:
      a simple table, four-character years, no padding token with an
      underscore at a joining end, non-empty padding tokens, and no
      `customPaddingsOnly` without "after" padding. */
  predicate EstimateExact(cfg: Config)
  {
    && SimpleTable(cfg.transformations)
    && (forall j :: 0 <= j < |cfg.years| ==> |cfg.years[j]| == 4)
    && (forall j :: 0 <= j < |cfg.commonPaddings| ==> |cfg.commonPaddings[j]| > 0)
    && (cfg.paddingsAfter ==> forall j :: 0 <= j < |cfg.commonPaddings| ==> cfg.commonPaddings[j][0] != '_')
    && (cfg.paddingsBefore ==> forall j :: 0 <= j < |cfg.commonPaddings| ==>
          cfg.commonPaddings[j][|cfg.commonPaddings[j]| - 1] != '_')
    && (cfg.customPaddingsOnly ==> cfg.paddingsAfter)
  }
}
