/** `messageCreate`: the gates every incoming message passes through, in
    order, and the one message the bot may post in reply. The gateway (the
    external translation program) and the Unicode category table are supplied
    as functions; the decision reads the channel index and the banned-word set
    as they stand when the message arrives. */
module Pipeline {
  import opened Wrappers
  import opened GoStrings
  import opened Emoji
  import opened BannedWordFilter
  import opened Similarity
  import opened Channels
  import opened BanWords

  type UserId = string

  /** An incoming message: its author, its server, its channel and its text. */
  datatype Message = Message(author: UserId, server: ServerId, channel: ChannelId, content: string)

  /** What the handler consults outside the message: the bot's own user ID,
      the Unicode category of each rune, and the translation gateway, which
      answers with the translated text or an error. */
  datatype Context = Context(
    selfId: UserId,
    categoryOf: char -> Category,
    translate: string -> Result<string, string>)

  /** How the handling of one message ends. */
  datatype Verdict =
    | FromSelf                    // written by the bot itself
    | NotEnrolled                 // its channel is not enrolled
    | OnlyEmoji                   // made of emoji runes only
    | BannedWord                  // one of its tokens is banned
    | TranslateFailed(reason: string) // the gateway failed: logged, nothing posted
    | TooSimilar                  // the translation is too close to the original
    | Posted(channel: ChannelId, text: string) // the reply posted

  /** The texts handed to the gateway (at most one), and the verdict. */
  datatype Run = Run(gatewayCalls: seq<string>, verdict: Verdict)

  const TranslatedPrefix := "Translated: "

  /** The four gates in front of the gateway all let the message through. */
  predicate Admitted(ctx: Context, index: Index, banned: set<string>, m: Message) {
    && m.author != ctx.selfId
    && Enrolled(index, m.channel)
    && !IsOnlyEmoji(ctx.categoryOf, m.content)
    && !ContainsBannedWord(m.content, banned)
  }

  /** `messageCreate`: each gate, in order, may end the handling; only a
      successful, sufficiently different translation is posted, to the
      message's own channel. */
  function MessageCreate(ctx: Context, index: Index, banned: set<string>, m: Message): (run: Run)
    ensures run.gatewayCalls == if Admitted(ctx, index, banned, m) then [m.content] else []
    ensures run.verdict.Posted? <==>
      && Admitted(ctx, index, banned, m)
      && ctx.translate(m.content).Ok?
      && !TextsSimilar(m.content, ctx.translate(m.content).value)
    ensures run.verdict.Posted? ==>
      run.verdict == Posted(m.channel, TranslatedPrefix + ctx.translate(m.content).value)
  {
    if m.author == ctx.selfId then Run([], FromSelf)
    else if !Enrolled(index, m.channel) then Run([], NotEnrolled)
    else if IsOnlyEmoji(ctx.categoryOf, m.content) then Run([], OnlyEmoji)
    else if ContainsBannedWord(m.content, banned) then Run([], BannedWord)
    else
      match ctx.translate(m.content)
      case Err(reason) => Run([m.content], TranslateFailed(reason))
      case Ok(translated) =>
        if TextsSimilar(m.content, translated) then Run([m.content], TooSimilar)
        else Run([m.content], Posted(m.channel, TranslatedPrefix + translated))
  }

  // ---------------------------------------------------------------------------
  // Gate order

  /** Every verdict names the first gate that stopped the message: all the
      gates before it passed and that one failed. */
  lemma VerdictNamesFirstFailingGate(ctx: Context, index: Index, banned: set<string>, m: Message)
    ensures var v := MessageCreate(ctx, index, banned, m).verdict;
      && (v == FromSelf <==> m.author == ctx.selfId)
      && (v == NotEnrolled <==> m.author != ctx.selfId && !Enrolled(index, m.channel))
      && (v == OnlyEmoji <==>
            m.author != ctx.selfId && Enrolled(index, m.channel) && IsOnlyEmoji(ctx.categoryOf, m.content))
      && (v == BannedWord <==>
            && m.author != ctx.selfId && Enrolled(index, m.channel) && !IsOnlyEmoji(ctx.categoryOf, m.content)
            && ContainsBannedWord(m.content, banned))
      && (v.TranslateFailed? <==> Admitted(ctx, index, banned, m) && ctx.translate(m.content).Err?)
      && (v == TooSimilar <==>
            && Admitted(ctx, index, banned, m) && ctx.translate(m.content).Ok?
            && TextsSimilar(m.content, ctx.translate(m.content).value))
  {
  }

  /** A gateway failure posts nothing and carries the gateway's reason. */
  lemma GatewayFailurePostsNothing(ctx: Context, index: Index, banned: set<string>, m: Message)
    requires Admitted(ctx, index, banned, m) && ctx.translate(m.content).Err?
    ensures MessageCreate(ctx, index, banned, m) == Run([m.content], TranslateFailed(ctx.translate(m.content).error))
  {
  }

  /** Which server the message came from plays no part: a channel enrolled by
      any server is translated, wherever the message says it came from. */
  lemma ServerIsIgnored(ctx: Context, index: Index, banned: set<string>, m: Message, other: ServerId)
    ensures MessageCreate(ctx, index, banned, m) == MessageCreate(ctx, index, banned, m.(server := other))
  {
  }

  /** Banning more words can only turn a post into a `BannedWord` verdict,
      never change what is posted or let through a message that was stopped. */
  lemma MoreBannedWordsOnlySuppress(ctx: Context, index: Index, banned: set<string>, more: set<string>, m: Message)
    requires banned <= more
    ensures var before := MessageCreate(ctx, index, banned, m);
      var after := MessageCreate(ctx, index, more, m);
      after == before || after.verdict == BannedWord
  {
    BannedWordMonotone(m.content, banned, more);
  }

  /** Once `/banword add` has stored a word, a message in which that word
      stands as a token is stopped before the gateway. */
  lemma AddedWordIsFiltered(ctx: Context, index: Index, existing: set<string>, request: string, m: Message, w: string)
    requires w in Candidates(Normalized(Split(request, ',')))
    requires IsField(ToLower(m.content), w)
    ensures var run := MessageCreate(ctx, index, existing + Candidates(Normalized(Split(request, ','))), m);
      run.gatewayCalls == [] && !run.verdict.Posted?
  {
    ContainsBannedWordIff(m.content, existing + Candidates(Normalized(Split(request, ','))));
  }

  // ---------------------------------------------------------------------------
  // End-to-end scenarios

  /** A message in a channel no server enrolled never reaches the gateway. */
  lemma NotEnrolledNeverReachesGateway(ctx: Context, index: Index, banned: set<string>, m: Message)
    requires !Enrolled(index, m.channel)
    ensures MessageCreate(ctx, index, banned, m).gatewayCalls == []
    ensures m.author != ctx.selfId ==> MessageCreate(ctx, index, banned, m).verdict == NotEnrolled
  {
  }

  /** "😀🎉" in an enrolled channel is stopped without a gateway call. */
  lemma EmojiMessageIsNotTranslated(ctx: Context, index: Index, banned: set<string>, m: Message)
    requires m.content == "\U{1F600}\U{1F389}"
    requires ctx.categoryOf('\U{1F600}') == So && ctx.categoryOf('\U{1F389}') == So
    requires m.author != ctx.selfId && Enrolled(index, m.channel)
    ensures MessageCreate(ctx, index, banned, m) == Run([], OnlyEmoji)
  {
    assert IsOnlyEmoji(ctx.categoryOf, m.content);
  }

  /** An admitted message whose translation succeeds is posted exactly when
      the translation is different enough. */
  lemma AdmittedOutcome(ctx: Context, index: Index, banned: set<string>, m: Message, t: string)
    requires Admitted(ctx, index, banned, m) && ctx.translate(m.content) == Ok(t)
    ensures MessageCreate(ctx, index, banned, m) ==
      if TextsSimilar(m.content, t) then Run([m.content], TooSimilar)
      else Run([m.content], Posted(m.channel, TranslatedPrefix + t))
  {
  }

  lemma BonjourText(o: string)
    requires o == "bonjour le monde"
    ensures ToLower(o) == o && Normalize(o) == o && Fields(o) == ["bonjour", "le", "monde"]
    ensures o[0] == 'b' && Fields(ToLower(o)) == ["bonjour", "le", "monde"]
  {
    ThreeWordText(o, "bonjour", "le", "monde");
  }

  lemma HelloTheWorldText(t: string)
    requires t == "hello the world"
    ensures Normalize(t) == t && Fields(t) == ["hello", "the", "world"]
  {
    ThreeWordText(t, "hello", "the", "world");
  }

  /** A message from someone else, in an enrolled channel, starting with a
      letter, whose lower-case tokens are all allowed, reaches the gateway. */
  lemma AdmittedWhen(ctx: Context, index: Index, banned: set<string>, m: Message, words: seq<string>)
    requires m.author != ctx.selfId && Enrolled(index, m.channel)
    requires m.content != [] && IsLetter(ctx.categoryOf(m.content[0]))
    requires Fields(ToLower(m.content)) == words
    requires forall i :: 0 <= i < |words| ==> words[i] !in banned
    ensures Admitted(ctx, index, banned, m)
  {
    LetterOrNumberIsNotOnlyEmoji(ctx.categoryOf, m.content, 0);
  }

  lemma BonjourIsAdmitted(ctx: Context, index: Index, banned: set<string>, m: Message)
    requires m.content == "bonjour le monde"
    requires ctx.categoryOf('b') == Ll
    requires "bonjour" !in banned && "le" !in banned && "monde" !in banned
    requires m.author != ctx.selfId && Enrolled(index, m.channel)
    ensures Admitted(ctx, index, banned, m)
  {
    BonjourText(m.content);
    AdmittedWhen(ctx, index, banned, m, ["bonjour", "le", "monde"]);
  }

  lemma BonjourIsNotSimilar(o: string, t: string)
    requires o == "bonjour le monde" && t == "hello the world"
    ensures !TextsSimilar(o, t)
  {
    BonjourText(o);
    HelloTheWorldText(t);
    var ow, tw := ["bonjour", "le", "monde"], ["hello", "the", "world"];
    ThreeMismatches(ow, tw);
    SimilarFromFields(o, t, ow, tw);
  }

  lemma LabelledText(t: string)
    requires t == "hello the world"
    ensures TranslatedPrefix + t == "Translated: hello the world"
  {
  }

  /** "bonjour le monde", translated as "hello the world", is posted as
      "Translated: hello the world" in the same channel. */
  lemma ForeignMessageIsPosted(ctx: Context, index: Index, banned: set<string>, m: Message)
    requires m.content == "bonjour le monde"
    requires ctx.translate(m.content) == Ok("hello the world")
    requires ctx.categoryOf('b') == Ll
    requires "bonjour" !in banned && "le" !in banned && "monde" !in banned
    requires m.author != ctx.selfId && Enrolled(index, m.channel)
    ensures MessageCreate(ctx, index, banned, m) == Run([m.content], Posted(m.channel, "Translated: hello the world"))
  {
    var t := "hello the world";
    BonjourIsAdmitted(ctx, index, banned, m);
    BonjourIsNotSimilar(m.content, t);
    AdmittedOutcome(ctx, index, banned, m, t);
    LabelledText(t);
  }

  lemma HelloWorldText(s: string)
    requires s == "hello world"
    ensures ToLower(s) == s && Fields(s) == ["hello", "world"]
    ensures s[0] == 'h' && Fields(ToLower(s)) == ["hello", "world"]
  {
    LowerCaseTextIsUnchanged(s);
    FieldsOfTwoWords(s, "hello", "world");
  }

  lemma HelloWorldIsAdmitted(ctx: Context, index: Index, banned: set<string>, m: Message)
    requires m.content == "hello world"
    requires ctx.categoryOf('h') == Ll
    requires "hello" !in banned && "world" !in banned
    requires m.author != ctx.selfId && Enrolled(index, m.channel)
    ensures Admitted(ctx, index, banned, m)
  {
    HelloWorldText(m.content);
    AdmittedWhen(ctx, index, banned, m, ["hello", "world"]);
  }

  /** "hello world", translated as itself, is stopped by the similarity gate
      after one gateway call. */
  lemma EnglishMessageIsSuppressed(ctx: Context, index: Index, banned: set<string>, m: Message)
    requires m.content == "hello world"
    requires ctx.translate(m.content) == Ok("hello world")
    requires ctx.categoryOf('h') == Ll
    requires "hello" !in banned && "world" !in banned
    requires m.author != ctx.selfId && Enrolled(index, m.channel)
    ensures MessageCreate(ctx, index, banned, m) == Run([m.content], TooSimilar)
  {
    HelloWorldIsAdmitted(ctx, index, banned, m);
    SimilarityIgnoresCaseAndPadding(m.content, m.content);
    AdmittedOutcome(ctx, index, banned, m, "hello world");
  }
}
