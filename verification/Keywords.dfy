/**
 The category of a header keyword: mandatory (section 4.4.1 of the FITS Standard 4.0), reserved or
 comment (section 4.4.2), or else defined by the user.
 */
module Keywords {

  type Mask = bv32

  const MANDATORY: Mask := 1
  const RESERVED: Mask := 2
  const COMMENT: Mask := 4
  const USER: Mask := 8

  const MANDATORIES_A: seq<string> := ["SIMPLE", "BITPIX", "NAXIS", "NAXISn", "END"]
  const MANDATORIES_B: seq<string> := ["XTENSION", "PCOUNT", "GCOUNT", "EXTEND"]
  const MANDATORIES: seq<string> := MANDATORIES_A + MANDATORIES_B

  const RESERVEDS_A: seq<string> := ["AUTHOR", "BLANK", "BLOCKED", "BSCALE"]
  const RESERVEDS_B: seq<string> := ["BUNIT", "BZERO", "CDELTn", "CROTAn"]
  const RESERVEDS_C: seq<string> := ["CRPIXn", "CRVALn", "CTYPEn", "DATAMAX"]
  const RESERVEDS_D: seq<string> := ["DATAMIN", "DATE", "DATE-OBS", "EPOCH"]
  const RESERVEDS_E: seq<string> := ["EQUINOX", "EXTLEVEL", "EXTNAME", "EXTVER"]
  const RESERVEDS_F: seq<string> := ["GROUPS", "INSTRUME", "OBJECT", "OBSERVER"]
  const RESERVEDS_G: seq<string> := ["ORIGIN", "PSCALn", "PTYPEn", "PZEROn"]
  const RESERVEDS_H: seq<string> := ["REFERENC", "TBCOLn", "TDIMn", "TDISPn"]
  const RESERVEDS_I: seq<string> := ["TELESCOP", "TFIELDS", "TFORMn", "THEAP"]
  const RESERVEDS_J: seq<string> := ["TNULLn", "TSCALn", "TTYPEn", "TUNITn"]
  const RESERVEDS_K: seq<string> := ["TZEROn"]
  const RESERVEDS_AD: seq<string> := RESERVEDS_A + RESERVEDS_B + RESERVEDS_C + RESERVEDS_D
  const RESERVEDS_EH: seq<string> := RESERVEDS_E + RESERVEDS_F + RESERVEDS_G + RESERVEDS_H
  const RESERVEDS_IK: seq<string> := RESERVEDS_I + RESERVEDS_J + RESERVEDS_K
  const RESERVEDS: seq<string> := RESERVEDS_AD + RESERVEDS_EH + RESERVEDS_IK

  const COMMENTS: seq<string> := ["COMMENT", "HISTORY"]

  predicate IsDigit(c: char)
  {
    '0' <= c <= '9'
  }

  predicate AllDigits(s: string)
  {
    forall i :: 0 <= i < |s| ==> IsDigit(s[i])
  }

  predicate NoDigit(s: string)
  {
    forall i :: 0 <= i < |s| ==> !IsDigit(s[i])
  }

  /** `ref` without its last character. */
  function Stem(ref: string): (r: string)
  {
    if ref == "" then "" else ref[..|ref| - 1]
  }

  /** The keyword is the stem of `ref` followed by a number, whatever the last character of `ref` is. */
  predicate MatchesIndexed(test: string, ref: string)
  {
    && ref != ""
    && |test| > |Stem(ref)|
    && test[..|Stem(ref)|] == Stem(ref)
    && AllDigits(test[|Stem(ref)|..])
  }

  /** A stem and any number of digits match the stem and any letter, and nothing else does. */
  lemma IndexedMatches(stem: string, s: string, c: char)
    ensures MatchesIndexed(stem + s, stem + [c]) <==> s != "" && forall i :: 0 <= i < |s| ==> '0' <= s[i] <= '9'
  {
    assert Stem(stem + [c]) == stem;
    assert (stem + s)[..|stem|] == stem && (stem + s)[|stem|..] == s;
  }

  predicate Matches(test: string, ref: string)
  {
    test == ref || MatchesIndexed(test, ref)
  }

  predicate MatchesOneOf(keyword: string, refs: seq<string>)
  {
    exists i :: 0 <= i < |refs| && Matches(keyword, refs[i])
  }

  /** Whether a keyword belongs to any of the categories of a mask. */
  predicate BelongsCategories(keyword: string, categories: Mask)
  {
    if keyword == "CONTINUE" then false
    else if categories & MANDATORY != 0 && MatchesOneOf(keyword, MANDATORIES) then true
    else if categories & RESERVED != 0 && MatchesOneOf(keyword, RESERVEDS) then true
    else if categories & COMMENT != 0 && MatchesOneOf(keyword, COMMENTS) then true
    else
      && categories & USER != 0
      && !MatchesOneOf(keyword, MANDATORIES)
      && !MatchesOneOf(keyword, RESERVEDS)
      && !MatchesOneOf(keyword, COMMENTS)
  }

  // No keyword matches references of two standard categories

  /** What the first letters of a stem tell of the category of its reference. */
  function KindOf(s: string): (r: Mask)
  {
    if |s| < 2 then USER
    else if s[0] == 'S' || s[0] == 'N' || s[0] == 'X' then MANDATORY
    else if (s[0] == 'B' && s[1] == 'I') || (s[0] == 'P' && s[1] == 'C') || (s[0] == 'G' && s[1] == 'C') then MANDATORY
    else if s[0] == 'E' && (s[1] == 'N' || (s[1] == 'X' && |s| >= 4 && s[3] == 'E')) then MANDATORY
    else if s[0] == 'H' || (s[0] == 'C' && s[1] == 'O') then COMMENT
    else RESERVED
  }

  /** All references are made of letters, and their stems tell their category. */
  ghost predicate AllOfKind(refs: seq<string>, kind: Mask)
  {
    forall i :: 0 <= i < |refs| ==> NoDigit(refs[i]) && refs[i] != "" && KindOf(Stem(refs[i])) == kind
  }

  lemma MandatoriesKindA()
    ensures AllOfKind(MANDATORIES_A, MANDATORY)
  {
  }

  lemma MandatoriesKindB()
    ensures AllOfKind(MANDATORIES_B, MANDATORY)
  {
  }

  lemma MandatoriesKind()
    ensures AllOfKind(MANDATORIES, MANDATORY)
  {
    MandatoriesKindA();
    MandatoriesKindB();
    KindOfConcatenation(MANDATORIES_A, MANDATORIES_B, MANDATORY);
  }

  lemma CommentsKind()
    ensures AllOfKind(COMMENTS, COMMENT)
  {
  }

  lemma ReservedsKindA()
    ensures AllOfKind(RESERVEDS_A, RESERVED)
  {
  }

  lemma ReservedsKindB()
    ensures AllOfKind(RESERVEDS_B, RESERVED)
  {
  }

  lemma ReservedsKindC()
    ensures AllOfKind(RESERVEDS_C, RESERVED)
  {
  }

  lemma ReservedsKindD()
    ensures AllOfKind(RESERVEDS_D, RESERVED)
  {
  }

  lemma ReservedsKindE()
    ensures AllOfKind(RESERVEDS_E, RESERVED)
  {
  }

  lemma ReservedsKindF()
    ensures AllOfKind(RESERVEDS_F, RESERVED)
  {
  }

  lemma ReservedsKindG()
    ensures AllOfKind(RESERVEDS_G, RESERVED)
  {
  }

  lemma ReservedsKindH()
    ensures AllOfKind(RESERVEDS_H, RESERVED)
  {
  }

  lemma ReservedsKindI()
    ensures AllOfKind(RESERVEDS_I, RESERVED)
  {
  }

  lemma ReservedsKindJ()
    ensures AllOfKind(RESERVEDS_J, RESERVED)
  {
  }

  lemma ReservedsKindK()
    ensures AllOfKind(RESERVEDS_K, RESERVED)
  {
  }

  lemma KindOfConcatenation(a: seq<string>, b: seq<string>, kind: Mask)
    requires AllOfKind(a, kind) && AllOfKind(b, kind)
    ensures AllOfKind(a + b, kind)
  {
  }

  lemma ReservedsKind()
    ensures AllOfKind(RESERVEDS, RESERVED)
  {
    ReservedsKindA();
    ReservedsKindB();
    ReservedsKindC();
    ReservedsKindD();
    ReservedsKindE();
    ReservedsKindF();
    ReservedsKindG();
    ReservedsKindH();
    ReservedsKindI();
    ReservedsKindJ();
    ReservedsKindK();
    KindOfConcatenation(RESERVEDS_A, RESERVEDS_B, RESERVED);
    KindOfConcatenation(RESERVEDS_A + RESERVEDS_B, RESERVEDS_C, RESERVED);
    KindOfConcatenation(RESERVEDS_A + RESERVEDS_B + RESERVEDS_C, RESERVEDS_D, RESERVED);
    KindOfConcatenation(RESERVEDS_E, RESERVEDS_F, RESERVED);
    KindOfConcatenation(RESERVEDS_E + RESERVEDS_F, RESERVEDS_G, RESERVED);
    KindOfConcatenation(RESERVEDS_E + RESERVEDS_F + RESERVEDS_G, RESERVEDS_H, RESERVED);
    KindOfConcatenation(RESERVEDS_I, RESERVEDS_J, RESERVED);
    KindOfConcatenation(RESERVEDS_I + RESERVEDS_J, RESERVEDS_K, RESERVED);
    KindOfConcatenation(RESERVEDS_AD, RESERVEDS_EH, RESERVED);
    KindOfConcatenation(RESERVEDS_AD + RESERVEDS_EH, RESERVEDS_IK, RESERVED);
  }

  /** References of letters which are matched by the same keyword have the same stem. */
  lemma MatchesTwo(keyword: string, a: string, b: string)
    requires Matches(keyword, a) && Matches(keyword, b) && NoDigit(a) && NoDigit(b)
    ensures Stem(a) == Stem(b)
  {
    LettersMatchThemselves(keyword, a);
    LettersMatchThemselves(keyword, b);
    if keyword != a && keyword != b {
      StemIsLongest(keyword, a, b);
      StemIsLongest(keyword, b, a);
    }
  }

  lemma LettersMatchThemselves(keyword: string, ref: string)
    requires Matches(keyword, ref)
    ensures NoDigit(keyword) ==> keyword == ref
  {
    if MatchesIndexed(keyword, ref) {
      var index := keyword[|Stem(ref)|..];
      assert IsDigit(index[0]) && index[0] == keyword[|Stem(ref)|];
    }
  }

  lemma StemIsLongest(keyword: string, a: string, b: string)
    requires MatchesIndexed(keyword, a) && MatchesIndexed(keyword, b) && NoDigit(b)
    ensures |Stem(a)| >= |Stem(b)|
  {
    var i := |Stem(a)|;
    assert IsDigit(keyword[i]) by {
      assert keyword[i] == keyword[i..][0];
    }
    forall j | 0 <= j < |Stem(b)| ensures !IsDigit(keyword[j]) {
      assert keyword[j] == keyword[..|Stem(b)|][j] == b[j];
    }
  }

  lemma OneKindOnly(keyword: string, a: seq<string>, b: seq<string>, x: Mask, y: Mask)
    requires AllOfKind(a, x) && AllOfKind(b, y) && x != y
    ensures !(MatchesOneOf(keyword, a) && MatchesOneOf(keyword, b))
  {
    if MatchesOneOf(keyword, a) && MatchesOneOf(keyword, b) {
      var i :| 0 <= i < |a| && Matches(keyword, a[i]);
      var j :| 0 <= j < |b| && Matches(keyword, b[j]);
      MatchesTwo(keyword, a[i], b[j]);
    }
  }

  /** The one category of a keyword. */
  function CategoryOf(keyword: string): (r: Mask)
  {
    if MatchesOneOf(keyword, MANDATORIES) then MANDATORY
    else if MatchesOneOf(keyword, RESERVEDS) then RESERVED
    else if MatchesOneOf(keyword, COMMENTS) then COMMENT
    else USER
  }

  /** Categories are a partition: a keyword belongs to a mask exactly if the mask has its category. */
  lemma BelongsToItsCategory(keyword: string, categories: Mask)
    ensures BelongsCategories(keyword, categories) <==>
      keyword != "CONTINUE" && categories & CategoryOf(keyword) != 0
  {
    MandatoriesKind();
    ReservedsKind();
    CommentsKind();
    OneKindOnly(keyword, MANDATORIES, RESERVEDS, MANDATORY, RESERVED);
    OneKindOnly(keyword, MANDATORIES, COMMENTS, MANDATORY, COMMENT);
    OneKindOnly(keyword, RESERVEDS, COMMENTS, RESERVED, COMMENT);
  }

  /** The members of each category. */
  lemma CategoryMembers(keyword: string)
    requires keyword != "CONTINUE"
    ensures BelongsCategories(keyword, MANDATORY) <==> MatchesOneOf(keyword, MANDATORIES)
    ensures BelongsCategories(keyword, RESERVED) <==> MatchesOneOf(keyword, RESERVEDS)
    ensures BelongsCategories(keyword, COMMENT) <==> MatchesOneOf(keyword, COMMENTS)
    ensures BelongsCategories(keyword, USER) <==>
      !MatchesOneOf(keyword, MANDATORIES + RESERVEDS + COMMENTS)
  {
    var standards := MANDATORIES + RESERVEDS + COMMENTS;
    assert forall i :: 0 <= i < |MANDATORIES| ==> standards[i] == MANDATORIES[i];
    assert forall i :: 0 <= i < |RESERVEDS| ==> standards[|MANDATORIES| + i] == RESERVEDS[i];
    assert forall i :: 0 <= i < |COMMENTS| ==> standards[|MANDATORIES| + |RESERVEDS| + i] == COMMENTS[i];
    assert MANDATORY == 1 && RESERVED == 2 && COMMENT == 4 && USER == 8;
  }

  /** Exactly one of the four categories. */
  lemma ExactlyOneCategory(keyword: string)
    requires keyword != "CONTINUE"
    ensures forall c: Mask :: c == MANDATORY || c == RESERVED || c == COMMENT || c == USER ==>
      (BelongsCategories(keyword, c) <==> c == CategoryOf(keyword))
  {
    forall c: Mask | c == MANDATORY || c == RESERVED || c == COMMENT || c == USER
      ensures BelongsCategories(keyword, c) <==> c == CategoryOf(keyword)
    {
      BelongsToItsCategory(keyword, c);
    }
  }

  lemma BelongsToUnion(keyword: string, a: Mask, b: Mask)
    ensures BelongsCategories(keyword, a | b) <==> BelongsCategories(keyword, a) || BelongsCategories(keyword, b)
  {
    BelongsToItsCategory(keyword, a);
    BelongsToItsCategory(keyword, b);
    BelongsToItsCategory(keyword, a | b);
    AndOfOr(a, b, CategoryOf(keyword));
  }

  lemma AndOfOr(a: Mask, b: Mask, c: Mask)
    ensures (a | b) & c != 0 <==> a & c != 0 || b & c != 0
  {
  }

  // When the matching is the intended one

  /** References which end in `n` are those of indexed keywords. */
  predicate IsIndexed(ref: string)
  {
    ref != "" && ref[|ref| - 1] == 'n'
  }

  /** The match of the FITS Standard: a number in place of the final `n`, or else the very same keyword. */
  predicate MatchesAsIntended(keyword: string, ref: string)
  {
    if IsIndexed(ref) then MatchesIndexed(keyword, ref) else keyword == ref
  }

  predicate MatchesOneOfAsIntended(keyword: string, refs: seq<string>)
  {
    exists i :: 0 <= i < |refs| && MatchesAsIntended(keyword, refs[i])
  }

  function IntendedCategoryOf(keyword: string): (r: Mask)
  {
    if MatchesOneOfAsIntended(keyword, MANDATORIES) then MANDATORY
    else if MatchesOneOfAsIntended(keyword, RESERVEDS) then RESERVED
    else if MatchesOneOfAsIntended(keyword, COMMENTS) then COMMENT
    else USER
  }

  /** The keyword has a number in place of the last letter of a reference which is not indexed, or is an indexed one. */
  predicate Confused(keyword: string, ref: string)
  {
    if IsIndexed(ref) then keyword == ref else MatchesIndexed(keyword, ref)
  }

  predicate ConfusedWithOneOf(keyword: string, refs: seq<string>)
  {
    exists i :: 0 <= i < |refs| && Confused(keyword, refs[i])
  }

  predicate IsConfused(keyword: string)
  {
    || ConfusedWithOneOf(keyword, MANDATORIES)
    || ConfusedWithOneOf(keyword, RESERVEDS)
    || ConfusedWithOneOf(keyword, COMMENTS)
  }

  /** What the stem of a reference tells of its being indexed. */
  function IndexedStem(s: string): (r: bool)
  {
    if |s| < 4 then false
    else if s[0] == 'T' then !(s[1] == 'E' || s[1] == 'H' || (s[1] == 'F' && s[2] == 'I'))
    else if s[0] == 'C' then |s| == 5
    else if s[0] == 'P' then s[1] != 'C'
    else s[0] == 'N' && |s| == 5
  }

  ghost predicate AllTold(refs: seq<string>)
  {
    forall i :: 0 <= i < |refs| ==> IsIndexed(refs[i]) == IndexedStem(Stem(refs[i]))
  }

  lemma MandatoriesToldA()
    ensures AllTold(MANDATORIES_A)
  {
  }

  lemma MandatoriesToldB()
    ensures AllTold(MANDATORIES_B)
  {
  }

  lemma MandatoriesTold()
    ensures AllTold(MANDATORIES)
  {
    MandatoriesToldA();
    MandatoriesToldB();
    ToldConcatenation(MANDATORIES_A, MANDATORIES_B);
  }

  lemma CommentsTold()
    ensures AllTold(COMMENTS)
  {
  }

  lemma ReservedsToldA()
    ensures AllTold(RESERVEDS_A)
  {
  }

  lemma ReservedsToldB()
    ensures AllTold(RESERVEDS_B)
  {
  }

  lemma ReservedsToldC()
    ensures AllTold(RESERVEDS_C)
  {
  }

  lemma ReservedsToldD()
    ensures AllTold(RESERVEDS_D)
  {
  }

  lemma ReservedsToldE()
    ensures AllTold(RESERVEDS_E)
  {
  }

  lemma ReservedsToldF()
    ensures AllTold(RESERVEDS_F)
  {
  }

  lemma ReservedsToldG()
    ensures AllTold(RESERVEDS_G)
  {
  }

  lemma ReservedsToldH()
    ensures AllTold(RESERVEDS_H)
  {
  }

  lemma ReservedsToldI()
    ensures AllTold(RESERVEDS_I)
  {
  }

  lemma ReservedsToldJ()
    ensures AllTold(RESERVEDS_J)
  {
  }

  lemma ReservedsToldK()
    ensures AllTold(RESERVEDS_K)
  {
  }

  lemma ToldConcatenation(a: seq<string>, b: seq<string>)
    requires AllTold(a) && AllTold(b)
    ensures AllTold(a + b)
  {
  }

  lemma ReservedsTold()
    ensures AllTold(RESERVEDS)
  {
    ReservedsToldA();
    ReservedsToldB();
    ReservedsToldC();
    ReservedsToldD();
    ReservedsToldE();
    ReservedsToldF();
    ReservedsToldG();
    ReservedsToldH();
    ReservedsToldI();
    ReservedsToldJ();
    ReservedsToldK();
    ToldConcatenation(RESERVEDS_A, RESERVEDS_B);
    ToldConcatenation(RESERVEDS_A + RESERVEDS_B, RESERVEDS_C);
    ToldConcatenation(RESERVEDS_A + RESERVEDS_B + RESERVEDS_C, RESERVEDS_D);
    ToldConcatenation(RESERVEDS_E, RESERVEDS_F);
    ToldConcatenation(RESERVEDS_E + RESERVEDS_F, RESERVEDS_G);
    ToldConcatenation(RESERVEDS_E + RESERVEDS_F + RESERVEDS_G, RESERVEDS_H);
    ToldConcatenation(RESERVEDS_I, RESERVEDS_J);
    ToldConcatenation(RESERVEDS_I + RESERVEDS_J, RESERVEDS_K);
    ToldConcatenation(RESERVEDS_AD, RESERVEDS_EH);
    ToldConcatenation(RESERVEDS_AD + RESERVEDS_EH, RESERVEDS_IK);
  }

  /** No keyword both is confused with a reference and matches one of the same stem as intended. */
  lemma ConfusedOrIntended(keyword: string, a: string, b: string)
    requires NoDigit(a) && NoDigit(b)
    requires IsIndexed(a) == IndexedStem(Stem(a)) && IsIndexed(b) == IndexedStem(Stem(b))
    ensures !(Confused(keyword, a) && MatchesAsIntended(keyword, b))
  {
    if Matches(keyword, a) && Matches(keyword, b) {
      MatchesTwo(keyword, a, b);
      LettersMatchThemselves(keyword, a);
      LettersMatchThemselves(keyword, b);
    }
  }

  /** Being confused with a reference is matching references of its list, none of them as intended. */
  lemma ConfusedInList(keyword: string, refs: seq<string>, kind: Mask)
    requires AllOfKind(refs, kind) && AllTold(refs)
    ensures ConfusedWithOneOf(keyword, refs) <==> MatchesOneOf(keyword, refs) && !MatchesOneOfAsIntended(keyword, refs)
    ensures MatchesOneOfAsIntended(keyword, refs) ==> MatchesOneOf(keyword, refs)
  {
    forall i | 0 <= i < |refs|
      ensures Matches(keyword, refs[i]) <==> MatchesAsIntended(keyword, refs[i]) || Confused(keyword, refs[i])
    {
    }
    forall i, j | 0 <= i < |refs| && 0 <= j < |refs|
      ensures !(Confused(keyword, refs[i]) && MatchesAsIntended(keyword, refs[j]))
    {
      ConfusedOrIntended(keyword, refs[i], refs[j]);
    }
  }

  /** A keyword gets the category of the FITS Standard if and only if it is not confused with any reference. */
  lemma IntendedCategoryCondition(keyword: string)
    ensures CategoryOf(keyword) == IntendedCategoryOf(keyword) <==> !IsConfused(keyword)
  {
    MandatoriesKind();
    ReservedsKind();
    CommentsKind();
    MandatoriesTold();
    ReservedsTold();
    CommentsTold();
    OneKindOnly(keyword, MANDATORIES, RESERVEDS, MANDATORY, RESERVED);
    OneKindOnly(keyword, MANDATORIES, COMMENTS, MANDATORY, COMMENT);
    OneKindOnly(keyword, RESERVEDS, COMMENTS, RESERVED, COMMENT);
    ConfusedInList(keyword, MANDATORIES, MANDATORY);
    ConfusedInList(keyword, RESERVEDS, RESERVED);
    ConfusedInList(keyword, COMMENTS, COMMENT);
  }

  /** Belonging is the intended one for every mask under the same condition; `CONTINUE` belongs to none. */
  lemma IntendedBelongingCondition(keyword: string)
    requires keyword != "CONTINUE"
    ensures (forall categories: Mask ::
        BelongsCategories(keyword, categories) <==> categories & IntendedCategoryOf(keyword) != 0) <==>
      !IsConfused(keyword)
  {
    IntendedCategoryCondition(keyword);
    forall categories: Mask
      ensures BelongsCategories(keyword, categories) <==> categories & CategoryOf(keyword) != 0
    {
      BelongsToItsCategory(keyword, categories);
    }
    assert BelongsCategories(keyword, CategoryOf(keyword));
  }

  /** `DAT1` is confused with `DATE` and `CDELTn` with itself: both are reserved, and should be of the user. */
  lemma ConfusedKeywords()
    ensures IsConfused("DAT1") && BelongsCategories("DAT1", RESERVED)
    ensures IsConfused("CDELTn") && BelongsCategories("CDELTn", RESERVED)
  {
    assert "DATE" == RESERVEDS_D[1] == RESERVEDS_AD[13] == RESERVEDS[13];
    assert "DAT1"[..3] == "DAT" == Stem("DATE");
    assert "DAT1"[3..] == "1";
    assert Matches("DAT1", RESERVEDS[13]) && Confused("DAT1", RESERVEDS[13]);
    assert "DAT1" != "CONTINUE";
    assert "CDELTn" == RESERVEDS_B[2] == RESERVEDS_AD[6] == RESERVEDS[6];
    assert Matches("CDELTn", RESERVEDS[6]) && Confused("CDELTn", RESERVEDS[6]);
    assert "CDELTn" != "CONTINUE";
  }
}
