/**
  How the two scripts relate: where their label parsers agree and where they
  part, and how their policy bodies differ.
 */
module Variants {
  import opened Text
  import opened Api
  import IamPolicy
  import ConfigPolicy

  /** A label neither variant alters: non-empty, no comma, no surrounding
      whitespace or double quotes, and no bracket at either end. */
  predicate Clean(s: string)
  {
    IamPolicy.IsLabel(s) && ',' !in s && ConfigPolicy.Unquoted(s) &&
    s[0] !in ConfigPolicy.Brackets && s[|s| - 1] !in ConfigPolicy.Brackets
  }

  /** The config parser reads back comma-joined segments that have no
      surrounding whitespace or quotes, empty ones included, as long as the
      first and the last are clean. */
  lemma ConfigParsesJoined(segments: seq<string>)
    requires |segments| > 0 && Clean(segments[0]) && Clean(segments[|segments| - 1])
    requires forall k :: 0 <= k < |segments| ==>
               ',' !in segments[k] && Trimmed(segments[k]) && ConfigPolicy.Unquoted(segments[k])
    ensures ConfigPolicy.ParseLabels(Join(segments, ',')) == segments
  {
    var cell := Join(segments, ',');
    BracketsSpareJoined(segments);
    SplitJoin(segments, ',');
    UnquoteSegments(cell, segments);
  }

  /** Stripping brackets leaves such a join as it is. */
  lemma BracketsSpareJoined(segments: seq<string>)
    requires |segments| > 0 && Clean(segments[0]) && Clean(segments[|segments| - 1])
    ensures Join(segments, ',') != ""
    ensures StripChars(Join(segments, ','), ConfigPolicy.Brackets) == Join(segments, ',')
  {
    var cell := Join(segments, ',');
    JoinEnds(segments, ',');
    StripCharsOfPadded([], cell, [], ConfigPolicy.Brackets);
    assert [] + cell + [] == cell;
  }

  /** When a cell is left alone by the bracket strip and splits into segments
      that unquoting leaves alone, the labels are those segments. */
  lemma UnquoteSegments(cell: string, segments: seq<string>)
    requires cell != "" && StripChars(cell, ConfigPolicy.Brackets) == cell
    requires Split(cell, ',') == segments
    requires forall k :: 0 <= k < |segments| ==> Trimmed(segments[k]) && ConfigPolicy.Unquoted(segments[k])
    ensures ConfigPolicy.ParseLabels(cell) == segments
  {
    var labels := ConfigPolicy.ParseLabels(cell);
    forall k | 0 <= k < |segments| ensures labels[k] == segments[k] {
      UnquoteClean(segments[k]);
    }
  }

  lemma UnquoteClean(s: string)
    requires Trimmed(s) && ConfigPolicy.Unquoted(s)
    ensures ConfigPolicy.Unquote(s) == s
  {
    StripOfTrimmed(s);
    StripCharsOfPadded([], s, [], ConfigPolicy.Quote);
    assert [] + s + [] == s;
  }

  /** Both parsers read a comma-joined list of clean labels back as that list. */
  lemma ParsersAgreeOnCleanLists(labels: seq<string>)
    requires labels != []
    requires forall k :: 0 <= k < |labels| ==> Clean(labels[k])
    ensures IamPolicy.ParseLabels(Join(labels, ',')) == labels
    ensures ConfigPolicy.ParseLabels(Join(labels, ',')) == labels
  {
    IamPolicy.ParseLabelsOfJoined(labels);
    ConfigParsesJoined(labels);
  }

  /** Two labels with an empty segment between them. */
  lemma JoinAroundEmpty(x: string, y: string)
    ensures Join([x, "", y], ',') == x + ",," + y
  {
    assert [x, "", y][1..] == ["", y];
    assert ["", y][1..] == [y];
    assert Join(["", y], ',') == [','] + y;
    assert x + [','] + ([','] + y) == x + ",," + y;
  }

  /** An empty segment is where the parsers part: the IAM variant drops it... */
  lemma IamDropsEmptySegment(x: string, y: string)
    requires Clean(x) && Clean(y)
    ensures IamPolicy.ParseLabels(x + ",," + y) == [x, y]
  {
    var segments := [x, "", y];
    JoinAroundEmpty(x, y);
    SplitJoin(segments, ',');
    KeepNonBlankEmptyMiddle(x, y);
  }

  lemma KeepNonBlankEmptyMiddle(x: string, y: string)
    requires IamPolicy.IsLabel(x) && IamPolicy.IsLabel(y)
    ensures IamPolicy.KeepNonBlank([x, "", y]) == [x, y]
  {
    var two := [x, ""];
    assert [x, "", y][..2] == two;
    assert two[..1] == [x];
    StripOfTrimmed(y);
    assert Strip("") == "";
    IamPolicy.KeepNonBlankOfClean([x]);
  }

  /** ...and the config variant keeps it as an empty label. */
  lemma ConfigKeepsEmptySegment(x: string, y: string)
    requires Clean(x) && Clean(y)
    ensures ConfigPolicy.ParseLabels(x + ",," + y) == [x, "", y]
  {
    JoinAroundEmpty(x, y);
    ConfigParsesJoined([x, "", y]);
  }

  /** Given the same inputs, the two policy bodies differ only in the policy
      type, the rule type and the recommendation. */
  lemma PolicyBodiesDifferInKindOnly(searchId: string, name: string, description: string, severity: string,
                                     labels: seq<string>, cloudType: string)
    ensures var iam := IamPolicy.PolicyPayload(searchId, name, description, severity, labels, cloudType);
            var config := ConfigPolicy.PolicyPayload(searchId, name, description, severity, labels, cloudType);
            iam.(policyType := "config", recommendation := "", rule := iam.rule.(ruleType := "Config")) == config &&
            iam.policyType != config.policyType && iam.rule.ruleType != config.rule.ruleType &&
            iam.recommendation != config.recommendation
  {
  }
}
