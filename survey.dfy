/**
 * The survey data and the filter criteria: one response row, the response
 * table, the fixed label-to-code dictionaries of the five categorical
 * selectors and the Likert question keys.
 */
module Survey {
  import opened Wrappers

  /**
   * One response as pandas holds it: the row's index label, its numeric cells
   * (category codes and Likert answers) and its free-text cells. A column
   * missing from `numeric` or `texts` is NaN in that row.
   */
  datatype Row = Row(index: int, numeric: map<string, int>, texts: map<string, string>)

  /** The loaded response table, in file order. */
  type Table = seq<Row>

  /** One Likert selector: a question column and the chosen answer string. */
  datatype LikertChoice = LikertChoice(question: string, answer: string)

  /**
   * The arguments of the filter: five category labels and the Likert answers
   * of the Q7 and Q9 groups, each group in its dictionary's insertion order.
   */
  datatype Criteria = Criteria(
    gender: string,
    age: string,
    certArea: string,
    gradDate: string,
    research: string,
    q7Values: seq<LikertChoice>,
    q9Values: seq<LikertChoice>)

  /** The exception float() raises on an answer that is not a number. */
  datatype FilterError = InvalidLikert(question: string, answer: string)

  /** The label that stands for "no constraint" in every selector. */
  const Any: string := "Any"

  /** The label-to-code dictionaries; "Any" is stored with no code. */
  const GenderCodes: map<string, Option<int>> :=
    map["Any" := None, "Male" := Some(1), "Female" := Some(0)]
  const AgeCodes: map<string, Option<int>> :=
    map["Any" := None, "20-25 years old" := Some(0), "26-40 years old" := Some(1),
        "41+ years old" := Some(9)]
  const CertAreaCodes: map<string, Option<int>> :=
    map["Any" := None, "early childhood" := Some(0), "elementary" := Some(1),
        "high school" := Some(2), "middle school" := Some(3)]
  const GradDateCodes: map<string, Option<int>> :=
    map["Any" := None, "Dec-22" := Some(0), "Dec-23" := Some(1), "May-23" := Some(2),
        "May-24" := Some(3)]
  const ResearchCodes: map<string, Option<int>> :=
    map["Any" := None, "yes" := Some(0), "no" := Some(1)]

  /** The Likert question columns of the two groups. */
  const Q7Questions: seq<string> :=
    ["Q7_1", "Q7_2", "Q7_3", "Q7_4", "Q7_5", "Q7_6", "Q7_7", "Q7_8", "Q7_9"]
  const Q9Questions: seq<string> := ["Q9_1", "Q9_2"]

  /** The answers a Likert selector offers. */
  const LikertAnswers: seq<string> := ["Any", "1", "2", "3", "4", "5"]

  /** A Likert group as the selectors fill it: one offered answer per question of the group. */
  predicate OfferedChoices(s: seq<LikertChoice>, questions: seq<string>) {
    && |s| == |questions|
    && forall k :: 0 <= k < |s| ==> s[k].question == questions[k] && s[k].answer in LikertAnswers
  }

  /** dict.get: the stored entry for a known label, None for any other label. */
  function Decode(codes: map<string, Option<int>>, key: string): Option<int> {
    if key in codes then codes[key] else None
  }

  /** A categorical selector after decoding: its column and its code, if any. */
  datatype ColumnFilter = ColumnFilter(column: string, code: Option<int>)

  /** The `filters` dictionary, in its insertion order. */
  function CategoricalFilters(c: Criteria): (fs: seq<ColumnFilter>)
    ensures |fs| == 5
  {
    [ ColumnFilter("gender", Decode(GenderCodes, c.gender)),
      ColumnFilter("age", Decode(AgeCodes, c.age)),
      ColumnFilter("certification_area", Decode(CertAreaCodes, c.certArea)),
      ColumnFilter("grad_date", Decode(GradDateCodes, c.gradDate)),
      ColumnFilter("Q14", Decode(ResearchCodes, c.research)) ]
  }

  /** A selector constrains its column exactly when its label is a known label other than "Any". */
  lemma DecodeConstrains(codes: map<string, Option<int>>, key: string)
    requires codes in {GenderCodes, AgeCodes, CertAreaCodes, GradDateCodes, ResearchCodes}
    ensures Decode(codes, key).Some? <==> key in codes && key != Any
    ensures Decode(codes, Any) == None
  {
  }

  /** No two labels of a dictionary share a code, so each label selects its own rows. */
  lemma DecodeDistinct(codes: map<string, Option<int>>, key1: string, key2: string)
    requires codes in {GenderCodes, AgeCodes, CertAreaCodes, GradDateCodes, ResearchCodes}
    requires Decode(codes, key1).Some? && Decode(codes, key1) == Decode(codes, key2)
    ensures key1 == key2
  {
  }
}
