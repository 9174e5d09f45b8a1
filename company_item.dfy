/** The derived values of one company card: whether it links to the company
    page, whether it shows an initial instead of a logo, the display text of
    its tag labels, and its tags grouped by label with their distinct
    reasons, which a tooltip lists one per line. */
module CompanyItem {
  import opened Wrappers
  import opened Strings
  import opened Seqs
  import opened CompanyTypes
  import Values

  /** `isClickable`: only a listed domestic company with an identifier links
      to its page, and such a card always shows its logo. */
  function IsClickable(c: Company): (clickable: bool)
    ensures clickable ==> !ShouldShowInitial(c) && Values.StockImageUrl(c.companyId, c.isDomestic).Some?
  {
    HasCompanyId(c) && c.isDomestic && c.isListed
  }

  /** `shouldShowInitial`: the card shows a coloured initial when the company
      has no identifier, is foreign, or is unlisted and has no logo URL. The
      last case never applies, because a domestic company with an identifier
      always has a logo URL; so the initial is shown exactly for companies
      without an identifier and for foreign ones, and otherwise the logo URL
      exists. */
  function ShouldShowInitial(c: Company): (show: bool)
    ensures show <==> !HasCompanyId(c) || !c.isDomestic
    ensures !show ==> Values.StockImageUrl(c.companyId, c.isDomestic).Some?
  {
    var url := Values.StockImageUrl(c.companyId, c.isDomestic);
    !HasCompanyId(c) || !c.isDomestic || (!c.isListed && c.isDomestic && url.None?)
  }

  /** What `labelMap[label]` evaluates to on an object literal: one of its own
      three strings, a member inherited from `Object.prototype` (a function,
      or the prototype itself for `__proto__`), or `undefined`. */
  datatype LabelValue = Text(text: string) | InheritedMember(name: string)

  /** The names every object literal inherits from `Object.prototype`
      (section 20.1.3 of ECMA-262 and Annex B.2.2). */
  const ObjectPrototypeMembers: set<string> := {
    "constructor", "hasOwnProperty", "isPrototypeOf", "propertyIsEnumerable",
    "toLocaleString", "toString", "valueOf", "__proto__", "__defineGetter__",
    "__defineSetter__", "__lookupGetter__", "__lookupSetter__"}

  /** `translateTagLabel` as written: `labelMap[label] || label`. Every
      inherited member is truthy, so for those labels the lookup wins and the
      result is not a string. */
  function TranslateTagLabelAsWritten(tagLabel: string): (v: LabelValue)
    ensures v.InheritedMember? <==> tagLabel in ObjectPrototypeMembers
  {
    if tagLabel == "OWNERSHIP_CHANGE" then Text("주주 변경")
    else if tagLabel == "IPO_DILUTION" then Text("IPO")
    else if tagLabel == "CAPITAL_INCREASE" then Text("유상증자")
    else if tagLabel in ObjectPrototypeMembers then InheritedMember(tagLabel)
    else Text(tagLabel)
  }

  /** A tag labelled `constructor` gets the `Object` constructor function as
      its display label instead of its own text. */
  lemma ConstructorLabelIsNotText()
    ensures TranslateTagLabelAsWritten("constructor") == InheritedMember("constructor")
  {
  }

  /** `translateTagLabel` as intended: the three known labels are translated
      and every other label is shown as it is. */
  function TranslateTagLabel(tagLabel: string): (text: string)
    ensures tagLabel == "OWNERSHIP_CHANGE" ==> text == "주주 변경"
    ensures tagLabel == "IPO_DILUTION" ==> text == "IPO"
    ensures tagLabel == "CAPITAL_INCREASE" ==> text == "유상증자"
    ensures tagLabel !in {"OWNERSHIP_CHANGE", "IPO_DILUTION", "CAPITAL_INCREASE"} ==> text == tagLabel
  {
    match tagLabel
    case "OWNERSHIP_CHANGE" => "주주 변경"
    case "IPO_DILUTION" => "IPO"
    case "CAPITAL_INCREASE" => "유상증자"
    case _ => tagLabel
  }

  /** The intended translation agrees with the code wherever the code yields
      text, and it yields text for every label. */
  lemma TranslationAgreesOnText(tagLabel: string)
    ensures TranslateTagLabelAsWritten(tagLabel).Text? ==>
      TranslateTagLabelAsWritten(tagLabel).text == TranslateTagLabel(tagLabel)
    ensures TranslateTagLabelAsWritten(tagLabel).InheritedMember? ==>
      TranslateTagLabel(tagLabel) == tagLabel
  {
  }

  /** One entry of `groupedTags`: the first tag with a label, and the distinct
      reasons of all tags with that label. */
  datatype TagGroup = TagGroup(tag: Tag, relReasons: seq<Option<string>>)

  function Labels(tags: seq<Tag>): (labels: seq<string>)
    ensures |labels| == |tags|
    ensures forall i :: 0 <= i < |tags| ==> labels[i] == tags[i].tagLabel
  {
    seq(|tags|, i requires 0 <= i < |tags| => tags[i].tagLabel)
  }

  /** The reasons of the tags labelled `tagLabel`, in tag order, repeats kept. */
  function ReasonsWithLabel(tags: seq<Tag>, tagLabel: string): seq<Option<string>> {
    if tags == [] then []
    else
      var last := tags[|tags| - 1];
      ReasonsWithLabel(tags[..|tags| - 1], tagLabel)
        + (if last.tagLabel == tagLabel then [last.relReason] else [])
  }

  /** The group of a label that occurs among the tags. */
  function GroupFor(tags: seq<Tag>, tagLabel: string): TagGroup
    requires tagLabel in Labels(tags)
  {
    TagGroup(tags[FirstIndex(Labels(tags), tagLabel)], Dedup(ReasonsWithLabel(tags, tagLabel)))
  }

  /** The groups of the given labels, in the given order. */
  function GroupsFor(tags: seq<Tag>, keys: seq<string>): (groups: seq<TagGroup>)
    requires forall k :: 0 <= k < |keys| ==> keys[k] in Labels(tags)
    ensures |groups| == |keys|
    ensures forall k :: 0 <= k < |keys| ==> groups[k] == GroupFor(tags, keys[k])
  {
    seq(|keys|, k requires 0 <= k < |keys| => GroupFor(tags, keys[k]))
  }

  /** `groupedTags`: one group per distinct label, in order of first
      occurrence. */
  function Grouped(tags: seq<Tag>): (groups: seq<TagGroup>)
    ensures |groups| == |Dedup(Labels(tags))| <= |tags|
  {
    GroupsFor(tags, Dedup(Labels(tags)))
  }

  /** Appending a tag appends its reason to its own label's list. */
  lemma ReasonsWithLabelSnoc(tags: seq<Tag>, t: Tag, tagLabel: string)
    ensures ReasonsWithLabel(tags + [t], tagLabel) ==
      ReasonsWithLabel(tags, tagLabel) + (if t.tagLabel == tagLabel then [t.relReason] else [])
  {
    assert (tags + [t])[..|tags|] == tags;
  }

  /** One more tag: a new label gets a fresh group of that tag and its
      reason; a known label's group gains the reason unless it is already
      there; other groups stay as they are. */
  lemma GroupForSnoc(tags: seq<Tag>, t: Tag, l: string)
    requires l in Labels(tags + [t])
    ensures l in Labels(tags) ==>
      var g := GroupFor(tags, l);
      GroupFor(tags + [t], l) ==
        if t.tagLabel == l && t.relReason !in g.relReasons
        then g.(relReasons := g.relReasons + [t.relReason]) else g
    ensures l !in Labels(tags) ==> GroupFor(tags + [t], l) == TagGroup(t, [t.relReason])
  {
    var next := tags + [t];
    assert Labels(next) == Labels(tags) + [t.tagLabel];
    ReasonsWithLabelSnoc(tags, t, l);
    if l in Labels(tags) {
      FirstIndexAppend(Labels(tags), [t.tagLabel], l);
      var i := FirstIndex(Labels(tags), l);
      assert next[i] == tags[i];
      var reasons := ReasonsWithLabel(tags, l);
      if t.tagLabel == l {
        DedupSnoc(reasons, t.relReason);
      } else {
        assert reasons + [] == reasons;
      }
    } else {
      FirstIndexAt(Labels(next), |tags|);
      ReasonsAbsent(tags, l);
      DedupSnoc([], t.relReason);
      assert [] + [t.relReason] == [t.relReason];
    }
  }

  /** The groups keyed by label: the contents of the source's `tagMap`. */
  function GroupMap(tags: seq<Tag>): (m: map<string, TagGroup>)
    ensures forall l :: l in m <==> l in Labels(tags)
  {
    map l | l in Labels(tags) :: GroupFor(tags, l)
  }

  /** The map after one more tag, as the loop body updates it. */
  function AddTag(m: map<string, TagGroup>, t: Tag): map<string, TagGroup> {
    if t.tagLabel in m then
      var g := m[t.tagLabel];
      if t.relReason !in g.relReasons then m[t.tagLabel := g.(relReasons := g.relReasons + [t.relReason])]
      else m
    else m[t.tagLabel := TagGroup(t, [t.relReason])]
  }

  /** What `AddTag` does to each key. */
  lemma AddTagAt(m: map<string, TagGroup>, t: Tag, l: string)
    ensures l in AddTag(m, t) <==> l in m || l == t.tagLabel
    ensures l in m && l != t.tagLabel ==> AddTag(m, t)[l] == m[l]
    ensures l == t.tagLabel && l in m ==>
      AddTag(m, t)[l] ==
        if t.relReason !in m[l].relReasons
        then m[l].(relReasons := m[l].relReasons + [t.relReason]) else m[l]
    ensures l == t.tagLabel && l !in m ==> AddTag(m, t)[l] == TagGroup(t, [t.relReason])
  {
  }

  lemma MapsEqual(m1: map<string, TagGroup>, m2: map<string, TagGroup>)
    requires forall l :: l in m1 <==> l in m2
    requires forall l :: l in m1 ==> m1[l] == m2[l]
    ensures m1 == m2
  {
  }

  lemma GroupMapSnoc(tags: seq<Tag>, t: Tag)
    ensures GroupMap(tags + [t]) == AddTag(GroupMap(tags), t)
  {
    var next := tags + [t];
    assert Labels(next) == Labels(tags) + [t.tagLabel];
    var m, m' := GroupMap(tags), GroupMap(next);
    var a := AddTag(m, t);
    forall l
      ensures l in m' <==> l in a
      ensures l in m' ==> m'[l] == a[l]
    {
      AddTagAt(m, t, l);
      if l in m' {
        GroupForSnoc(tags, t, l);
        assert m'[l] == GroupFor(next, l);
        if l in Labels(tags) {
          assert m[l] == GroupFor(tags, l);
        }
      }
    }
    MapsEqual(m', a);
  }

  /** `groupedTags`, loop for loop: a map from label to group, filled in tag
      order; a new label gets a group holding its tag and reason, a known
      label gets the reason appended unless already there. The groups come
      out in the map's insertion order. */
  method GroupTags(tags: seq<Tag>) returns (groups: seq<TagGroup>)
    ensures groups == Grouped(tags)
  {
    var order: seq<string> := [];
    var tagMap: map<string, TagGroup> := map[];
    for i := 0 to |tags|
      invariant order == Dedup(Labels(tags[..i]))
      invariant tagMap == GroupMap(tags[..i])
    {
      var tag := tags[i];
      LoopStep(tags, i);
      ghost var before := tagMap;
      if tag.tagLabel in tagMap {
        var existing := tagMap[tag.tagLabel];
        if tag.relReason !in existing.relReasons {
          tagMap := tagMap[tag.tagLabel := existing.(relReasons := existing.relReasons + [tag.relReason])];
        }
      } else {
        tagMap := tagMap[tag.tagLabel := TagGroup(tag, [tag.relReason])];
        order := order + [tag.tagLabel];
      }
      assert tagMap == AddTag(before, tag);
    }
    assert tags[..|tags|] == tags;
    groups := seq(|order|, k requires 0 <= k < |order| => tagMap[order[k]]);
    GroupedFromMap(tags, groups);
  }

  /** How the loop's two pieces of state advance by one tag. */
  lemma LoopStep(tags: seq<Tag>, i: nat)
    requires i < |tags|
    ensures Dedup(Labels(tags[..i + 1])) ==
      if tags[i].tagLabel in GroupMap(tags[..i]) then Dedup(Labels(tags[..i]))
      else Dedup(Labels(tags[..i])) + [tags[i].tagLabel]
    ensures GroupMap(tags[..i + 1]) == AddTag(GroupMap(tags[..i]), tags[i])
  {
    var prefix, tag := tags[..i], tags[i];
    assert tags[..i + 1] == prefix + [tag];
    assert Labels(prefix + [tag]) == Labels(prefix) + [tag.tagLabel];
    DedupSnoc(Labels(prefix), tag.tagLabel);
    GroupMapSnoc(prefix, tag);
  }

  /** Reading the map in key insertion order gives the groups. */
  lemma GroupedFromMap(tags: seq<Tag>, groups: seq<TagGroup>)
    requires |groups| == |Dedup(Labels(tags))|
    requires forall k :: 0 <= k < |groups| ==> groups[k] == GroupMap(tags)[Dedup(Labels(tags))[k]]
    ensures groups == Grouped(tags)
  {
  }

  /** A label that no tag carries has no reasons. */
  lemma {:induction false} ReasonsAbsent(tags: seq<Tag>, tagLabel: string)
    requires tagLabel !in Labels(tags)
    ensures ReasonsWithLabel(tags, tagLabel) == []
  {
    if tags != [] {
      var p := tags[..|tags| - 1];
      assert Labels(tags) == Labels(p) + [tags[|tags| - 1].tagLabel];
      ReasonsAbsent(p, tagLabel);
    }
  }

  /** A reason is among a label's reasons exactly when some tag with that
      label carries it. */
  lemma {:induction false} ReasonsWithLabelMembers(tags: seq<Tag>, l: string, r: Option<string>)
    ensures r in ReasonsWithLabel(tags, l) <==>
      exists i :: 0 <= i < |tags| && tags[i].tagLabel == l && tags[i].relReason == r
  {
    if tags != [] {
      var p := tags[..|tags| - 1];
      ReasonsWithLabelMembers(p, l, r);
      assert forall i :: 0 <= i < |p| ==> p[i] == tags[i];
    }
  }

  /** The first of a label's reasons belongs to the first tag with that label. */
  lemma {:induction false} FirstReasonIsFirstTags(tags: seq<Tag>, l: string)
    requires l in Labels(tags)
    ensures |ReasonsWithLabel(tags, l)| > 0
    ensures ReasonsWithLabel(tags, l)[0] == tags[FirstIndex(Labels(tags), l)].relReason
  {
    var p, t := tags[..|tags| - 1], tags[|tags| - 1];
    assert tags == p + [t];
    assert Labels(tags) == Labels(p) + [t.tagLabel];
    if l in Labels(p) {
      FirstReasonIsFirstTags(p, l);
      FirstIndexAppend(Labels(p), [t.tagLabel], l);
    } else {
      ReasonsAbsent(p, l);
      FirstIndexAt(Labels(tags), |p|);
    }
  }

  /** The label of group `k` is the `k`-th distinct label. */
  lemma GroupLabel(tags: seq<Tag>, k: nat)
    requires k < |Grouped(tags)|
    ensures Grouped(tags)[k].tag.tagLabel == Dedup(Labels(tags))[k]
  {
  }

  /** No two groups share a label, so there are at most as many groups as
      tags. */
  lemma GroupedLabelsDistinct(tags: seq<Tag>)
    ensures |Grouped(tags)| <= |tags|
    ensures forall a, b :: 0 <= a < b < |Grouped(tags)| ==>
      Grouped(tags)[a].tag.tagLabel != Grouped(tags)[b].tag.tagLabel
  {
    var d, g := Dedup(Labels(tags)), Grouped(tags);
    forall a, b | 0 <= a < b < |g|
      ensures g[a].tag.tagLabel != g[b].tag.tagLabel
    {
      GroupLabel(tags, a);
      GroupLabel(tags, b);
    }
  }

  /** Every tag's label has a group. */
  lemma GroupedCoversEveryTag(tags: seq<Tag>, i: nat)
    requires i < |tags|
    ensures exists k :: 0 <= k < |Grouped(tags)| && Grouped(tags)[k].tag.tagLabel == tags[i].tagLabel
  {
    var d := Dedup(Labels(tags));
    assert Labels(tags)[i] in d;
    var k :| 0 <= k < |d| && d[k] == Labels(tags)[i];
    GroupLabel(tags, k);
  }

  /** Each group's tag is the first tag with its label. */
  lemma GroupTagIsFirst(tags: seq<Tag>, k: nat)
    requires k < |Grouped(tags)|
    ensures exists j :: (0 <= j < |tags| && Grouped(tags)[k].tag == tags[j]
      && forall i :: 0 <= i < j ==> tags[i].tagLabel != tags[j].tagLabel)
  {
    var d := Dedup(Labels(tags));
    var j := FirstIndex(Labels(tags), d[k]);
    assert Grouped(tags)[k].tag == tags[j];
    forall i | 0 <= i < j
      ensures tags[i].tagLabel != tags[j].tagLabel
    {
      assert Labels(tags)[..j][i] == tags[i].tagLabel;
    }
  }

  /** Each group lists its label's reasons once each, in order of first
      occurrence, starting with the reason of the group's own tag; a reason is
      listed exactly when some tag with the label carries it. */
  lemma GroupReasons(tags: seq<Tag>, k: nat)
    requires k < |Grouped(tags)|
    ensures var g := Grouped(tags)[k];
      && Distinct(g.relReasons)
      && |g.relReasons| >= 1
      && g.relReasons[0] == g.tag.relReason
      && forall r :: r in g.relReasons <==>
           exists i :: 0 <= i < |tags| && tags[i].tagLabel == g.tag.tagLabel && tags[i].relReason == r
  {
    var l := Dedup(Labels(tags))[k];
    var g := Grouped(tags)[k];
    var reasons := ReasonsWithLabel(tags, l);
    FirstReasonIsFirstTags(tags, l);
    DedupHead(reasons);
    forall r
      ensures r in g.relReasons <==>
        exists i :: 0 <= i < |tags| && tags[i].tagLabel == g.tag.tagLabel && tags[i].relReason == r
    {
      ReasonsWithLabelMembers(tags, l, r);
    }
  }

  /** Number of reasons over all groups. */
  function TotalReasons(groups: seq<TagGroup>): nat {
    if groups == [] then 0
    else TotalReasons(groups[..|groups| - 1]) + |groups[|groups| - 1].relReasons|
  }

  /** A label has as many reasons, repeats kept, as tags carrying it. */
  lemma {:induction false} ReasonsWithLabelLength(tags: seq<Tag>, l: string)
    ensures |ReasonsWithLabel(tags, l)| == Count(Labels(tags), l)
  {
    if tags != [] {
      var p, t := tags[..|tags| - 1], tags[|tags| - 1];
      assert Labels(tags) == Labels(p) + [t.tagLabel];
      CountSnoc(Labels(p), t.tagLabel, l);
      ReasonsWithLabelLength(p, l);
    }
  }

  lemma {:induction false} TotalReasonsBound(tags: seq<Tag>, keys: seq<string>)
    requires forall k :: 0 <= k < |keys| ==> keys[k] in Labels(tags)
    ensures TotalReasons(GroupsFor(tags, keys)) <= SumCounts(Labels(tags), keys)
  {
    if keys != [] {
      var init := keys[..|keys| - 1];
      TotalReasonsBound(tags, init);
      GroupsForSnoc(tags, keys);
      ReasonsWithLabelLength(tags, keys[|keys| - 1]);
    }
  }

  lemma GroupsForSnoc(tags: seq<Tag>, keys: seq<string>)
    requires keys != []
    requires forall k :: 0 <= k < |keys| ==> keys[k] in Labels(tags)
    ensures TotalReasons(GroupsFor(tags, keys)) ==
      TotalReasons(GroupsFor(tags, keys[..|keys| - 1]))
      + |Dedup(ReasonsWithLabel(tags, keys[|keys| - 1]))|
  {
    var g := GroupsFor(tags, keys);
    assert g[..|keys| - 1] == GroupsFor(tags, keys[..|keys| - 1]);
    assert g[|keys| - 1] == GroupFor(tags, keys[|keys| - 1]);
  }

  /** The tooltips of all groups together have at most one line per tag. */
  lemma TooltipLinesAtMostTags(tags: seq<Tag>)
    ensures TotalReasons(Grouped(tags)) <= |tags|
  {
    TotalReasonsBound(tags, Dedup(Labels(tags)));
    CountsOverDedupSumToLength(Labels(tags));
  }

  /** `${reason}`: a missing reason, taken to be `null`, renders as `null`. */
  function ReasonText(r: Option<string>): string {
    match r
    case None => "null"
    case Some(text) => text
  }

  function TooltipLines(reasons: seq<Option<string>>): seq<string> {
    seq(|reasons|, i requires 0 <= i < |reasons| => "- " + ReasonText(reasons[i]))
  }

  /** `relReasons.map((reason) => `- ${reason}`).join('\n')`. */
  function TooltipText(reasons: seq<Option<string>>): (text: string)
    ensures text == "" <==> reasons == []
  {
    Join(TooltipLines(reasons), "\n")
  }

  /** The tooltip text has one line per reason, each the reason behind a
      dash, provided no reason itself spans lines. */
  lemma TooltipHasOneLinePerReason(reasons: seq<Option<string>>)
    requires |reasons| >= 1
    requires forall i :: 0 <= i < |reasons| ==> '\n' !in ReasonText(reasons[i])
    ensures Split(TooltipText(reasons), '\n') == TooltipLines(reasons)
    ensures |Split(TooltipText(reasons), '\n')| == |reasons|
  {
    var lines := TooltipLines(reasons);
    forall i | 0 <= i < |lines|
      ensures '\n' !in lines[i]
    {
      assert '\n' !in "- ";
    }
    SplitJoin(lines, '\n');
  }
}
