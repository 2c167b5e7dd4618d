/** The node's text rules for one conversation turn: the preset-answer table
    (`_serach_preset_answer`), the action-keyword router
    (`_detect_action_keywords`) and the brand-name rewriting applied to
    generated text before it is spoken (`_replace_response_information`). */
module Routing {
  import opened Text
  import opened Optional

  /** The action keywords, in the order the router tries them. */
  const ActionKeywords: seq<string> := ["挥手", "握手", "摇头", "点头", "唱歌", "唱首歌"]

  /** Index of the first key of `keys` that occurs in `s`, or None. */
  function FirstContained(s: string, keys: seq<string>): (r: Option<nat>)
    ensures r.Some? ==> r.value < |keys| && Contains(s, keys[r.value])
    ensures r.Some? ==> forall j :: 0 <= j < r.value ==> !Contains(s, keys[j])
    ensures r.None? <==> forall j :: 0 <= j < |keys| ==> !Contains(s, keys[j])
    decreases |keys|
  {
    if keys == [] then None
    else if Contains(s, keys[0]) then Some(0)
    else match FirstContained(s, keys[1..])
      case None => None
      case Some(i) => Some(i + 1)
  }

  /** The action keyword a question asks for: the first keyword, in list
      order, that occurs in the question. */
  function DetectActionKeyword(question: string): (r: Option<string>)
  {
    match FirstContained(question, ActionKeywords)
    case None => None
    case Some(i) => Some(ActionKeywords[i])
  }

  /** The router answers with a keyword that occurs in the question and that
      no earlier keyword of the list pre-empts; it answers None exactly when
      the question holds no keyword at all. */
  lemma DetectActionKeywordSpec(question: string)
    ensures var r := DetectActionKeyword(question);
      && (r.Some? ==> exists i :: 0 <= i < |ActionKeywords| && r.value == ActionKeywords[i]
                        && Contains(question, r.value)
                        && forall j :: 0 <= j < i ==> !Contains(question, ActionKeywords[j]))
      && (r.None? <==> forall k :: k in ActionKeywords ==> !Contains(question, k))
  {
    match FirstContained(question, ActionKeywords)
    case None =>
    case Some(i) =>
      assert ActionKeywords[i] in ActionKeywords;
  }

  /** A question without the wave, handshake and head-shake keywords but
      with the nod keyword is routed to the nod action. */
  lemma RouteToNod(q: string)
    requires !Contains(q, "挥手") && !Contains(q, "握手") && !Contains(q, "摇头")
    requires Contains(q, "点头")
    ensures DetectActionKeyword(q) == Some("点头")
  {
    var ks := ActionKeywords;
    assert ks[1..][1..][1..] == ["点头", "唱歌", "唱首歌"];
    assert FirstContained(q, ks[1..][1..][1..]) == Some(0);
    assert FirstContained(q, ks[1..][1..]) == Some(1);
    assert FirstContained(q, ks[1..]) == Some(2);
  }

  /** A question that mentions nodding is routed to the nod action. */
  lemma DetectNod(q: string)
    requires q == "可以给我点头吗"
    ensures DetectActionKeyword(q) == Some("点头")
  {
    MissingChar(q, "挥手", '挥');
    MissingChar(q, "握手", '握');
    MissingChar(q, "摇头", '摇');
    assert q[4..6] == "点头";
    ContainsSlice(q, 4, 6);
    RouteToNod(q);
  }

  /** Asking the robot its name asks for no action: none of the keywords
      occurs in it. */
  lemma NameNoAction(q: string)
    requires q == "你叫什么名字"
    ensures DetectActionKeyword(q) == None
  {
    MissingChar(q, "挥手", '挥');
    MissingChar(q, "握手", '握');
    MissingChar(q, "摇头", '摇');
    MissingChar(q, "点头", '点');
    MissingChar(q, "唱歌", '唱');
    MissingChar(q, "唱首歌", '唱');
    DetectActionKeywordSpec(q);
  }

  const NameAnswer: string := "我叫小琳"
  const TalentAnswer: string := "上知天文下知地理，懂的都懂"

  /** The preset-answer table: three substring rules tried in order. There is
      an answer exactly when one rule matches; the talent answer needs "特长"
      without "名字", and the third rule only answers when the talent rule
      did not match first. */
  function SearchPresetAnswer(question: string): (r: Option<string>)
    ensures r.Some? ==> r.value == NameAnswer || r.value == TalentAnswer
    ensures r.Some? ==> Contains(question, "你")
    ensures r.None? <==>
      !(Contains(question, "你") && (Contains(question, "名字") || Contains(question, "特长")))
      && !Contains(question, "你叫什么")
    ensures r == Some(TalentAnswer) <==>
      Contains(question, "你") && Contains(question, "特长") && !Contains(question, "名字")
    ensures r == Some(NameAnswer) <==>
      (Contains(question, "你") && Contains(question, "名字"))
      || (Contains(question, "你叫什么") && !Contains(question, "特长"))
  {
    if Contains(question, "你") && Contains(question, "名字") then Some(NameAnswer)
    else if Contains(question, "你") && Contains(question, "特长") then Some(TalentAnswer)
    else if Contains(question, "你叫什么") then
      ContainsTransitive(question, "你叫什么", "你");
      Some(NameAnswer)
    else None
  }

  /** Asking the robot its name is answered from the table. */
  lemma PresetName()
    ensures SearchPresetAnswer("你叫什么名字") == Some(NameAnswer)
  {
    var q := "你叫什么名字";
    assert q[0..1] == "你" && q[4..6] == "名字";
    ContainsSlice(q, 0, 1);
    ContainsSlice(q, 4, 6);
  }

  /** The rules apply in order: a question matching both the name rule and
      the talent rule gets the name answer. */
  lemma PresetOrder(question: string)
    requires Contains(question, "你") && Contains(question, "名字") && Contains(question, "特长")
    ensures SearchPresetAnswer(question) == Some(NameAnswer)
  {
  }

  /** The three brand-name rewrites, applied one after the other. */
  function ReplaceResponseInformation(s: string): string
  {
    ReplaceAll(ReplaceAll(ReplaceAll(s, "科大讯飞", "华南理工大学张智军教授"),
      "讯飞星火认知大模型", "类人机器人"), "认知智能大模型", "类人机器人")
  }

  /** The professor's name survives the two later rewrites. */
  lemma ProfessorStable(s: string)
    requires s == "华南理工大学张智军教授"
    ensures ReplaceAll(ReplaceAll(s, "讯飞星火认知大模型", "类人机器人"), "认知智能大模型", "类人机器人") == s
  {
    MissingChar(s, "讯飞星火认知大模型", '讯');
    ReplaceAbsent(s, "讯飞星火认知大模型", "类人机器人");
    MissingChar(s, "认知智能大模型", '认');
    ReplaceAbsent(s, "认知智能大模型", "类人机器人");
  }

  /** The company's name is rewritten to the professor's. */
  lemma BrandRewritten(q: string)
    requires q == "科大讯飞"
    ensures ReplaceResponseInformation(q) == "华南理工大学张智军教授"
  {
    ReplaceWhole(q, "华南理工大学张智军教授");
    ProfessorStable("华南理工大学张智军教授");
  }

  /** The language model's product name is rewritten to "类人机器人". */
  lemma ModelNameRewritten(q: string)
    requires q == "讯飞星火认知大模型"
    ensures ReplaceResponseInformation(q) == "类人机器人"
  {
    var sub := "类人机器人";
    MissingChar(q, "科大讯飞", '科');
    ReplaceAbsent(q, "科大讯飞", "华南理工大学张智军教授");
    ReplaceWhole(q, sub);
    MissingChar(sub, "认知智能大模型", '认');
    ReplaceAbsent(sub, "认知智能大模型", sub);
  }

  /** The cognitive model's name is rewritten to "类人机器人". */
  lemma ThirdNameRewritten(q: string)
    requires q == "认知智能大模型"
    ensures ReplaceResponseInformation(q) == "类人机器人"
  {
    MissingChar(q, "科大讯飞", '科');
    ReplaceAbsent(q, "科大讯飞", "华南理工大学张智军教授");
    MissingChar(q, "讯飞星火认知大模型", '讯');
    ReplaceAbsent(q, "讯飞星火认知大模型", "类人机器人");
    ReplaceWhole(q, "类人机器人");
  }

  /** Text that names none of the three brands is spoken unchanged. */
  lemma PlainTextUnchanged(s: string)
    requires !Contains(s, "科大讯飞") && !Contains(s, "讯飞星火认知大模型") && !Contains(s, "认知智能大模型")
    ensures ReplaceResponseInformation(s) == s
  {
    ReplaceAbsent(s, "科大讯飞", "华南理工大学张智军教授");
    ReplaceAbsent(s, "讯飞星火认知大模型", "类人机器人");
    ReplaceAbsent(s, "认知智能大模型", "类人机器人");
  }
}
