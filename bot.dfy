/** The bot's state and the commands that change it: the stored `channels` and
    `wordban` tables, the in-memory caches `translateChannels` and
    `bannedWords` loaded from them, `addTranslateChannels`, and the
    `/translate`, `/banword add` and `/banword remove` handlers. The database
    is represented by the two table fields; a failing query is supplied as a
    `StoreFault`. */
module Bot {
  import opened Wrappers
  import opened GoStrings
  import opened Channels
  import opened BanWords

  /** How the store answers the two statements of `addTranslateChannels`: both
      succeed, the SELECT fails (with an error other than "no rows"), or the
      INSERT OR REPLACE fails. */
  datatype StoreFault = NoFault | ReadFault(reason: string) | WriteFault(reason: string)

  class BotState {
    /** The rows of the `channels` table. */
    var channelTable: Table
    /** The in-memory index `translateChannels`. */
    var translateChannels: Index
    /** The rows of the `wordban` table. */
    var wordTable: set<string>
    /** The in-memory set `bannedWords`. */
    var bannedWords: set<string>

    /** Both caches agree with the tables they are loaded from. */
    ghost predicate Valid()
      reads this
    {
      translateChannels == Project(channelTable) && bannedWords == wordTable
    }

    /** Start-up: the tables as found on disk, then both caches loaded. */
    constructor (channels: Table, words: set<string>)
      ensures Valid()
      ensures channelTable == channels && wordTable == words
    {
      channelTable := channels;
      wordTable := words;
      translateChannels := map[];
      bannedWords := {};
      new;
      LoadBannedWords();
      LoadTranslateChannels();
    }

    /** `loadBannedWords`: a fresh set holding every stored word. */
    method LoadBannedWords()
      modifies this`bannedWords
      ensures bannedWords == wordTable
    {
      var rows := wordTable;
      var loaded: set<string> := {};
      while rows != {}
        invariant rows <= wordTable
        invariant loaded == wordTable - rows
        decreases |rows|
      {
        var word :| word in rows;
        loaded := loaded + {word};
        rows := rows - {word};
      }
      bannedWords := loaded;
    }

    /** `loadTranslateChannels`: a fresh index with one entry per stored row,
        NULL columns read as "". */
    method LoadTranslateChannels()
      modifies this`translateChannels
      ensures translateChannels == Project(channelTable)
    {
      var rows := channelTable.Keys;
      var loaded: Index := map[];
      while rows != {}
        invariant rows <= channelTable.Keys
        invariant loaded.Keys == channelTable.Keys - rows
        invariant forall s :: s in loaded ==> loaded[s] == ProjectRow(channelTable[s])
        decreases |rows|
      {
        var server :| server in rows;
        var row := channelTable[server];
        var entry: Entry := [ColumnText(row[0]), ColumnText(row[1]), ColumnText(row[2])];
        assert entry == ProjectRow(row);
        loaded := loaded[server := entry];
        rows := rows - {server};
      }
      translateChannels := loaded;
    }

    /** `addTranslateChannels`: read the server's row (none reads as three
        NULLs), overwrite the supplied slots, write the row back and reload the
        index. A failing statement leaves everything as it was and is reported. */
    method AddTranslateChannels(server: ServerId, supplied: Row, fault: StoreFault) returns (err: Option<string>)
      requires Valid()
      modifies this`channelTable, this`translateChannels
      ensures Valid()
      ensures fault.NoFault? ==> err == None && channelTable == Upsert(old(channelTable), server, supplied)
      ensures !fault.NoFault? ==> err == Some(fault.reason) && channelTable == old(channelTable)
    {
      if fault.ReadFault? {
        return Some(fault.reason);
      }
      var existing := ExistingRow(channelTable, server);
      var c1, c2, c3 := existing[0], existing[1], existing[2];
      if supplied[0].Some? {
        c1 := supplied[0];
      }
      if supplied[1].Some? {
        c2 := supplied[1];
      }
      if supplied[2].Some? {
        c3 := supplied[2];
      }
      if fault.WriteFault? {
        return Some(fault.reason);
      }
      var row: Row := [c1, c2, c3];
      assert row == Merge(existing, supplied);
      channelTable := channelTable[server := row];
      LoadTranslateChannels();
      return None;
    }

    /** The `/translate` command: at least one channel must be picked; the
        picked channels are enrolled and the reply names each of them. */
    method HandleTranslateCommand(server: ServerId, picks: Picks, fault: StoreFault) returns (reply: string)
      requires Valid()
      modifies this`channelTable, this`translateChannels
      ensures Valid()
      ensures NonePicked(picks) ==>
        reply == NoChannelError && channelTable == old(channelTable) && translateChannels == old(translateChannels)
      ensures !NonePicked(picks) && fault.NoFault? ==>
        && channelTable == Upsert(old(channelTable), server, PickedIds(picks))
        && reply == Confirmation(picks)
        && forall k :: 0 <= k < SlotCount && picks[k].Some? ==> Enrolled(translateChannels, picks[k].value.id)
      ensures !NonePicked(picks) && !fault.NoFault? ==>
        reply == EnableFailedPrefix + fault.reason && channelTable == old(channelTable)
    {
      if NonePicked(picks) {
        return NoChannelError;
      }
      var err := AddTranslateChannels(server, PickedIds(picks), fault);
      if err.Some? {
        return EnableFailedPrefix + err.value;
      }
      forall k | 0 <= k < SlotCount && picks[k].Some?
        ensures Enrolled(translateChannels, picks[k].value.id)
      {
        UpsertEnrollsSupplied(old(channelTable), server, PickedIds(picks), k);
      }
      reply := Confirmation(picks);
    }

    /** The insertion loop of `/banword add`, over the normalised pieces: each
        non-empty word not yet stored is inserted and reported, in order. */
    method InsertWords(words: seq<string>) returns (addedWords: seq<string>)
      modifies this`wordTable
      ensures wordTable == old(wordTable) + Candidates(words)
      ensures addedWords == AddedWords(old(wordTable), words)
    {
      addedWords := [];
      for i := 0 to |words|
        invariant addedWords == AddedWords(old(wordTable), words[..i])
        invariant wordTable == old(wordTable) + Candidates(words[..i])
      {
        var word := words[i];
        assert words[..i + 1] == words[..i] + [word];
        AddStep(old(wordTable), words[..i], word);
        if word != "" && word !in wordTable {
          wordTable := wordTable + {word};
          addedWords := addedWords + [word];
        }
      }
      assert words[..|words|] == words;
    }

    /** `/banword add`: split the request on ",", normalise the pieces, insert
        each non-empty word not stored yet, reload the set when something was
        inserted, and reply with the inserted words. Normalising a piece reads
        nothing from the table, so normalising all pieces before the insertion
        loop gives the same words as normalising each inside it. */
    method HandleBanwordAdd(words: string) returns (reply: string)
      requires Valid()
      modifies this`wordTable, this`bannedWords
      ensures Valid()
      ensures wordTable == old(wordTable) + Candidates(Normalized(Split(words, ',')))
      ensures reply == AddReply(AddedWords(old(wordTable), Normalized(Split(words, ','))))
      ensures WellFormedWords(old(wordTable)) ==> WellFormedWords(wordTable)
    {
      var wordList := Split(words, ',');
      var normalized := Normalized(wordList);
      if WellFormedWords(wordTable) {
        AddKeepsWellFormed(wordTable, wordList);
      }
      var addedWords := InsertWords(normalized);
      if |addedWords| > 0 {
        LoadBannedWords();
      } else {
        NothingAddedIff(old(wordTable), normalized);
      }
      reply := AddReply(addedWords);
    }

    /** `/banword remove`: normalise the word; an empty word is refused;
        otherwise it is deleted and the set reloaded. */
    method HandleBanwordRemove(word: string) returns (reply: string)
      requires Valid()
      modifies this`wordTable, this`bannedWords
      ensures Valid()
      ensures NormalizeWord(word) == "" ==> reply == NoWordReply && wordTable == old(wordTable)
      ensures NormalizeWord(word) != "" ==>
        reply == RemovedPrefix + NormalizeWord(word) && wordTable == old(wordTable) - {NormalizeWord(word)}
      ensures WellFormedWords(old(wordTable)) ==> WellFormedWords(wordTable)
    {
      var w := NormalizeWord(word);
      if w == "" {
        return NoWordReply;
      }
      if WellFormedWords(wordTable) {
        RemoveKeepsWellFormed(wordTable, w);
      }
      wordTable := wordTable - {w};
      LoadBannedWords();
      reply := RemovedPrefix + w;
    }
  }
}
