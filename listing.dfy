/**
 * The two computations inside `show_users` (app/main.py): which lines of a membership file are
 * listed, and how the listing is cut into messages below Discord's 4000-character limit.
 * The entries themselves (numbered Markdown links with profile names fetched over HTTP) are
 * taken as given strings, each ending in a line break.
 */
module Listing {
  import opened Text
  import opened FileOperations

  // ---------------------------------------------------------------------------
  // the membership listing filter
  // ---------------------------------------------------------------------------

  /** The shortest line that is listed: the length of a SteamID64. */
  const MinListedLength := 17

  /**
   * The distinct lines of a whitelist or reserved-slot file that are listed: not comments
   * (a leading `#`) and at least 17 characters long.
   */
  function ListedLines(text: string): (listed: set<string>)
    ensures forall line :: line in listed <==>
      line in Lines(text) && !("#" <= line) && |line| >= MinListedLength
  {
    set line | line in Lines(text) && !("#" <= line) && |line| >= MinListedLength
  }

  /** Each listed line is a line of the file, so there are at most one more than its line breaks. */
  lemma ListedLinesBound(text: string)
    ensures |ListedLines(text)| <= CountChar(text, '\n') + 1
  {
    var lines := Lines(text);
    var all := set line | line in lines;
    assert ListedLines(text) <= all;
    assert all == ListedLines(text) + (all - ListedLines(text));
    DistinctBound(lines);
    SplitCharCount(text, '\n');
  }

  /** A sequence has at most as many distinct elements as it has elements. */
  lemma {:induction false} DistinctBound(lines: seq<string>)
    ensures |set line | line in lines| <= |lines|
  {
    if lines != [] {
      DistinctBound(lines[1..]);
      assert (set line | line in lines) == (set line | line in lines[1..]) + {lines[0]};
    }
  }

  /** A player added to a membership file is listed afterwards. */
  lemma AddedMemberListed(text: string, steamid: string)
    requires |steamid| == 17 && AllDigits(steamid)
    ensures Token(steamid) in ListedLines(AddMiscellaneous(text, steamid))
  {
    var token := Token(steamid);
    assert AddMiscellaneous(text, steamid) == text + ['\n'] + token;
    SplitCharConcat(text, '\n', token);
    assert token[0] == steamid[0];
    assert '\n' !in token by {
      assert forall t :: 0 <= t < 17 ==> token[t] == steamid[t];
    }
    CharNotContained(token, '\n');
    SplitSingle(token, "\n");
    assert Lines(AddMiscellaneous(text, steamid)) == Lines(text) + [token];
    assert !("#" <= token) by {
      assert IsDigit(token[0]);
    }
  }

  /** The lines of a text with one line break: the parts before and after it. */
  lemma LinesOfTwo(a: string, b: string)
    requires '\n' !in a
    ensures Lines(a + "\n" + b) == [a] + Lines(b)
  {
    SplitCharConcat(a, '\n', b);
    CharNotContained(a, '\n');
    SplitSingle(a, "\n");
  }

  /** Of a comment, a short line and a long line, in any order of texts, only the long line is listed. */
  lemma ListedOfThree(comment: string, short: string, long: string)
    requires '\n' !in comment && '\n' !in short && '\n' !in long
    requires "#" <= comment && |short| < MinListedLength && |long| >= MinListedLength && !("#" <= long)
    ensures ListedLines(comment + "\n" + short + "\n" + long) == {long}
  {
    LinesOfTwo(short, long);
    CharNotContained(long, '\n');
    SplitSingle(long, "\n");
    LinesOfTwo(comment, short + "\n" + long);
    assert comment + "\n" + short + "\n" + long == comment + "\n" + (short + "\n" + long);
    var lines := [comment, short, long];
    assert Lines(comment + "\n" + short + "\n" + long) == lines;
    forall x
      ensures x in ListedLines(comment + "\n" + short + "\n" + long) <==> x == long
    {
      if x == comment {
        assert "#" <= x;
      }
    }
  }

  /** The example of a whitelist file: a comment, a short line and a token; only the token is listed. */
  lemma ListingSkipsCommentsAndShortLines()
    ensures ListedLines("#comment" + "\n" + "123" + "\n" + "76500000000000001@steam") == {"76500000000000001@steam"}
  {
    var token := "76500000000000001@steam";
    assert '\n' !in "#comment";
    assert '\n' !in "123";
    assert '\n' !in token;
    assert "#" <= "#comment";
    assert !("#" <= token) by {
      assert token[0] != '#';
    }
    ListedOfThree("#comment", "123", token);
  }

  // ---------------------------------------------------------------------------
  // cutting the listing into messages
  // ---------------------------------------------------------------------------

  /** Messages must stay strictly below this many characters. */
  const Limit := 4000

  /** What the bot shows when nobody is listed. */
  const NoUsers := "Користувачі з доступом відсутні"

  /** The placeholder the command answers with first, before any edit. */
  const Placeholder := "Очікуйте..."

  /**
   * An edit of the command's original response (`Response.edit`), or an ephemeral follow-up
   * message (`Response.send_ephemeral`).
   */
  datatype Message = Edit(body: string) | Send(body: string)

  /** `"".join(parts)`. */
  function Concat(parts: seq<string>): string
  {
    Join(parts, "")
  }

  lemma ConcatCons(part: string, rest: seq<string>)
    ensures Concat([part] + rest) == part + Concat(rest)
  {
    if rest != [] {
      assert ([part] + rest)[1..] == rest;
    }
  }

  function Bodies(messages: seq<Message>): (bodies: seq<string>)
    ensures |bodies| == |messages| && forall k :: 0 <= k < |messages| ==> bodies[k] == messages[k].body
  {
    if messages == [] then [] else [messages[0].body] + Bodies(messages[1..])
  }

  /**
   * The messages the chunking loop emits from the current chunk `text` and the entries still
   * to place: an entry that keeps the chunk below the limit is appended, otherwise the chunk is
   * flushed by an edit (or, when empty, a follow-up) and the entry starts the next one; the last
   * chunk is sent as a follow-up.
   */
  function Flush(text: string, rest: seq<string>): (messages: seq<Message>)
    ensures |messages| <= |rest| + 1
    ensures text != "" ==> messages != []
    decreases |rest|
  {
    if rest == [] then
      if text != "" then [Send(text)] else []
    else if |text + rest[0]| < Limit then Flush(text + rest[0], rest[1..])
    else (if text != "" then [Edit(text)] else [Send(text)]) + Flush(rest[0], rest[1..])
  }

  /** How a full chunk is flushed: by an edit, or by a follow-up when it is empty. */
  function FlushedAs(text: string): Message
  {
    if text != "" then Edit(text) else Send(text)
  }

  /** One step of the chunking: the next entry joins the chunk, or the chunk is flushed first. */
  lemma FlushStep(text: string, rest: seq<string>)
    requires rest != []
    ensures Flush(text, rest) ==
      if |text + rest[0]| < Limit then Flush(text + rest[0], rest[1..])
      else [FlushedAs(text)] + Flush(rest[0], rest[1..])
  {
  }

  /** The same step, after the messages already sent. */
  lemma FlushAfterSent(sent: seq<Message>, text: string, rest: seq<string>)
    requires rest != []
    ensures sent + Flush(text, rest) ==
      if |text + rest[0]| < Limit then sent + Flush(text + rest[0], rest[1..])
      else (sent + [FlushedAs(text)]) + Flush(rest[0], rest[1..])
  {
    FlushStep(text, rest);
  }

  /** Everything `show_users` sends once the header and the entries are built. */
  function Paginated(header: string, users: seq<string>): (messages: seq<Message>)
    ensures messages != [] && |messages| <= |users| + 1
  {
    if users == [] then [Edit(NoUsers)]
    else if |header + Concat(users)| < Limit then [Edit(header + Concat(users))]
    else
      FlushConcat(header, users);
      Flush(header, users)
  }

  /** A listing too long for one message is chunked. */
  lemma PaginatedLong(header: string, users: seq<string>)
    requires users != [] && |header + Concat(users)| >= Limit
    ensures Paginated(header, users) == Flush(header, users)
  {
  }

  /** The chunking of `show_users`, step by step. */
  method Paginate(header: string, users: seq<string>) returns (messages: seq<Message>)
    ensures messages == Paginated(header, users)
  {
    if users == [] {
      return [Edit(NoUsers)];
    }
    var united := header + Concat(users);
    if |united| < Limit {
      return [Edit(united)];
    }
    PaginatedLong(header, users);
    messages := [];
    var text := header;
    var i := 0;
    while i < |users|
      invariant 0 <= i <= |users|
      invariant messages + Flush(text, users[i..]) == Flush(header, users)
    {
      var user := users[i];
      FlushAfterSent(messages, text, users[i..]);
      assert users[i..][0] == user && users[i..][1..] == users[i + 1..];
      if |text + user| < Limit {
        text := text + user;
      } else {
        if text != "" {
          messages := messages + [Edit(text)];
        } else {
          messages := messages + [Send(text)];
        }
        text := user;
      }
      i := i + 1;
    }
    assert users[i..] == [];
    assert Flush(text, []) == if text != "" then [Send(text)] else [];
    if text != "" {
      messages := messages + [Send(text)];
    }
  }

  /** The chunks, read in order, are the current chunk followed by every remaining entry. */
  lemma {:induction false} FlushConcat(text: string, rest: seq<string>)
    ensures Concat(Bodies(Flush(text, rest))) == text + Concat(rest)
    decreases |rest|
  {
    if rest == [] {
    } else if |text + rest[0]| < Limit {
      FlushConcat(text + rest[0], rest[1..]);
      ConcatCons(rest[0], rest[1..]);
      assert [rest[0]] + rest[1..] == rest;
    } else {
      var head := if text != "" then Edit(text) else Send(text);
      FlushConcat(rest[0], rest[1..]);
      ConcatCons(rest[0], rest[1..]);
      assert [rest[0]] + rest[1..] == rest;
      assert Bodies([head] + Flush(rest[0], rest[1..])) == [text] + Bodies(Flush(rest[0], rest[1..]));
      ConcatCons(text, Bodies(Flush(rest[0], rest[1..])));
    }
  }

  /**
   * Every chunk is below the limit, or is a single piece that was already too long by itself:
   * the chunk it started from, or one entry.
   */
  lemma {:induction false} FlushBound(text: string, rest: seq<string>)
    ensures forall m :: m in Flush(text, rest) ==> |m.body| < Limit || m.body == text || m.body in rest
    decreases |rest|
  {
    if rest != [] {
      if |text + rest[0]| < Limit {
        FlushBound(text + rest[0], rest[1..]);
      } else {
        FlushBound(rest[0], rest[1..]);
      }
    }
  }

  /** Concatenating a sequence of groups of pieces. */
  function Flatten(groups: seq<seq<string>>): seq<string>
  {
    if groups == [] then [] else groups[0] + Flatten(groups[1..])
  }

  /**
   * The pieces each chunk of `Flush(text, rest)` is made of, in order: the current chunk's
   * pieces `current`, then groups of consecutive entries.
   */
  function Groups(current: seq<string>, rest: seq<string>): seq<seq<string>>
    decreases |rest|
  {
    if rest == [] then
      if Concat(current) != "" then [current] else []
    else if |Concat(current) + rest[0]| < Limit then Groups(current + [rest[0]], rest[1..])
    else [current] + Groups([rest[0]], rest[1..])
  }

  lemma {:induction false} ConcatSnoc(parts: seq<string>, last: string)
    ensures Concat(parts + [last]) == Concat(parts) + last
  {
    if parts != [] {
      assert (parts + [last])[1..] == parts[1..] + [last];
      ConcatSnoc(parts[1..], last);
      ConcatCons(parts[0], parts[1..] + [last]);
      ConcatCons(parts[0], parts[1..]);
      assert [parts[0]] + parts[1..] == parts;
      assert [parts[0]] + (parts[1..] + [last]) == parts + [last];
    }
  }

  /**
   * With non-empty pieces, the chunks partition the pieces: each chunk is the concatenation of
   * its group, and the groups laid end to end are the pieces in their order, so every entry
   * lands in exactly one chunk.
   */
  lemma {:induction false} FlushGroups(current: seq<string>, rest: seq<string>)
    requires Concat(current) != "" && forall k :: 0 <= k < |rest| ==> rest[k] != ""
    ensures var groups := Groups(current, rest);
      && Bodies(Flush(Concat(current), rest)) == seq(|groups|, k requires 0 <= k < |groups| => Concat(groups[k]))
      && Flatten(groups) == current + rest
    decreases |rest|
  {
    var text := Concat(current);
    if rest == [] {
      assert Flatten([current]) == current;
    } else if |text + rest[0]| < Limit {
      ConcatSnoc(current, rest[0]);
      FlushGroups(current + [rest[0]], rest[1..]);
      assert current + [rest[0]] + rest[1..] == current + rest;
    } else {
      assert Concat([rest[0]]) == rest[0];
      FlushGroups([rest[0]], rest[1..]);
      var tail := Groups([rest[0]], rest[1..]);
      var later := Flush(rest[0], rest[1..]);
      var groups := Groups(current, rest);
      assert groups == [current] + tail;
      assert Flush(text, rest) == [FlushedAs(text)] + later by { FlushStep(text, rest); }
      forall k | 0 <= k < |groups|
        ensures Bodies(Flush(text, rest))[k] == Concat(groups[k])
      {
        if k > 0 {
          assert Bodies(later)[k - 1] == Concat(tail[k - 1]);
        }
      }
      assert Flatten([current] + tail) == current + Flatten(tail);
      assert [rest[0]] + rest[1..] == rest;
    }
  }

  /**
   * What `Paginated` promises: no message when nobody is listed other than the notice; one
   * message when everything fits; otherwise chunks that read back as the header followed by
   * every entry in order, each chunk below the limit or a single oversized piece, and each
   * entry in exactly one chunk.
   */
  lemma PaginatedSpec(header: string, users: seq<string>)
    requires header != "" && forall k :: 0 <= k < |users| ==> users[k] != ""
    ensures users == [] ==> Paginated(header, users) == [Edit(NoUsers)]
    ensures users != [] && |header + Concat(users)| < Limit ==>
      Paginated(header, users) == [Edit(header + Concat(users))]
    ensures users != [] && |header + Concat(users)| >= Limit ==>
      var messages := Paginated(header, users);
      var groups := Groups([header], users);
      && Concat(Bodies(messages)) == header + Concat(users)
      && (forall m :: m in messages ==> |m.body| < Limit || m.body == header || m.body in users)
      && Bodies(messages) == seq(|groups|, k requires 0 <= k < |groups| => Concat(groups[k]))
      && Flatten(groups) == [header] + users
  {
    if users != [] && |header + Concat(users)| >= Limit {
      FlushConcat(header, users);
      FlushBound(header, users);
      assert Concat([header]) == header;
      FlushGroups([header], users);
    }
  }

  // ---------------------------------------------------------------------------
  // what the reader sees
  // ---------------------------------------------------------------------------

  /** The body of the last edit, or the placeholder when there was none. */
  function LastEdit(messages: seq<Message>): string
  {
    if messages == [] then Placeholder
    else if messages[|messages| - 1].Edit? then messages[|messages| - 1].body
    else LastEdit(messages[..|messages| - 1])
  }

  function FollowUps(messages: seq<Message>): (bodies: seq<string>)
    ensures |bodies| <= |messages|
  {
    if messages == [] then []
    else (if messages[0].Send? then [messages[0].body] else []) + FollowUps(messages[1..])
  }

  /**
   * The messages on screen after the command: its original response as last edited, then the
   * follow-ups in order. An edit replaces whatever the original response showed before.
   */
  function Visible(messages: seq<Message>): seq<string>
  {
    [LastEdit(messages)] + FollowUps(messages)
  }

  /** `n` copies of `c`. */
  function Repeat(c: char, n: nat): (s: string)
    ensures |s| == n && forall k :: 0 <= k < n ==> s[k] == c
  {
    if n == 0 then [] else [c] + Repeat(c, n - 1)
  }

  /**
   * As written, every full chunk is flushed with an edit of the same original response, so
   * each flush overwrites the one before. With a one-character header and two entries of 3999
   * characters, the header chunk is edited in, overwritten by the first entry, and the second
   * entry follows: the header is no longer on screen and the visible text is shorter than the
   * listing.
   */
  lemma EditsOverwriteChunks()
    ensures var entry := Repeat('a', 3998) + "\n";
      var messages := Paginated("H", [entry, entry]);
      && messages == [Edit("H"), Edit(entry), Send(entry)]
      && Visible(messages) == [entry, entry]
      && "H" !in Visible(messages)
      && |Concat(Visible(messages))| < |"H" + Concat([entry, entry])|
  {
    var entry := Repeat('a', 3998) + "\n";
    ConcatCons(entry, [entry]);
    assert |"H" + Concat([entry, entry])| == 7999;
    assert Flush(entry, []) == [Send(entry)];
    assert Flush(entry, [entry]) == [Edit(entry)] + [Send(entry)];
    assert [entry, entry][1..] == [entry];
    assert Flush("H", [entry, entry]) == [Edit("H")] + Flush(entry, [entry]);
    var messages := [Edit("H"), Edit(entry), Send(entry)];
    assert messages[..2] == [Edit("H"), Edit(entry)];
    assert !messages[2].Edit?;
    assert LastEdit(messages) == LastEdit(messages[..2]);
    assert LastEdit(messages[..2]) == entry;
    assert FollowUps(messages) == [entry] by {
      assert messages[1..] == [Edit(entry), Send(entry)];
      assert messages[1..][1..] == [Send(entry)];
      assert [Send(entry)][1..] == [];
      assert FollowUps([Send(entry)]) == [entry];
      assert FollowUps(messages[1..]) == FollowUps([Send(entry)]);
    }
    assert "H" != entry;
    ConcatCons(entry, [entry]);
  }

  /**
   * The chunking as evidently intended: the first chunk replaces the placeholder and every
   * later chunk is a follow-up, so none is overwritten.
   */
  function FlushFixed(text: string, rest: seq<string>, flushed: bool): (messages: seq<Message>)
    decreases |rest|
  {
    var out := if flushed then Send(text) else Edit(text);
    if rest == [] then
      if text != "" then [out] else []
    else if |text + rest[0]| < Limit then FlushFixed(text + rest[0], rest[1..], flushed)
    else [out] + FlushFixed(rest[0], rest[1..], true)
  }

  function PaginatedFixed(header: string, users: seq<string>): seq<Message>
  {
    if users == [] then [Edit(NoUsers)]
    else if |header + Concat(users)| < Limit then [Edit(header + Concat(users))]
    else FlushFixed(header, users, false)
  }

  /** The fixed chunking emits the same chunks as the written one; only the kind of message differs. */
  lemma {:induction false} FlushFixedBodies(text: string, rest: seq<string>, flushed: bool)
    requires text != "" && forall k :: 0 <= k < |rest| ==> rest[k] != ""
    ensures Bodies(FlushFixed(text, rest, flushed)) == Bodies(Flush(text, rest))
    ensures flushed ==> forall m :: m in FlushFixed(text, rest, flushed) ==> m.Send?
    ensures !flushed ==>
      (FlushFixed(text, rest, flushed) != [] && FlushFixed(text, rest, flushed)[0].Edit?
       && forall k :: 1 <= k < |FlushFixed(text, rest, flushed)| ==> FlushFixed(text, rest, flushed)[k].Send?)
    decreases |rest|
  {
    if rest != [] {
      if |text + rest[0]| < Limit {
        FlushFixedBodies(text + rest[0], rest[1..], flushed);
      } else {
        FlushFixedBodies(rest[0], rest[1..], true);
        var head := if flushed then Send(text) else Edit(text);
        assert Bodies([head] + FlushFixed(rest[0], rest[1..], true)) == [text] + Bodies(FlushFixed(rest[0], rest[1..], true));
        assert Bodies([Edit(text)] + Flush(rest[0], rest[1..])) == [text] + Bodies(Flush(rest[0], rest[1..]));
      }
    }
  }

  /** Messages whose first is an edit and the rest follow-ups are all on screen, in order. */
  lemma {:induction false} VisibleOfEditThenSends(messages: seq<Message>)
    requires messages != [] && messages[0].Edit?
    requires forall k :: 1 <= k < |messages| ==> messages[k].Send?
    ensures Visible(messages) == Bodies(messages)
  {
    LastEditIsFirst(messages);
    SendsAll(messages[1..]);
    assert messages == [messages[0]] + messages[1..];
  }

  lemma {:induction false} LastEditIsFirst(messages: seq<Message>)
    requires messages != [] && messages[0].Edit?
    requires forall k :: 1 <= k < |messages| ==> messages[k].Send?
    ensures LastEdit(messages) == messages[0].body
    decreases |messages|
  {
    if |messages| > 1 {
      LastEditIsFirst(messages[..|messages| - 1]);
    }
  }

  lemma {:induction false} SendsAll(messages: seq<Message>)
    requires forall k :: 0 <= k < |messages| ==> messages[k].Send?
    ensures FollowUps(messages) == Bodies(messages)
    decreases |messages|
  {
    if messages != [] {
      SendsAll(messages[1..]);
    }
  }

  /** With the fix, everything listed stays on screen: the visible text is the whole listing. */
  lemma FixedShowsEverything(header: string, users: seq<string>)
    requires header != "" && users != [] && forall k :: 0 <= k < |users| ==> users[k] != ""
    ensures Concat(Visible(PaginatedFixed(header, users))) == header + Concat(users)
  {
    var messages := PaginatedFixed(header, users);
    if |header + Concat(users)| < Limit {
      assert messages == [Edit(header + Concat(users))];
      assert Visible(messages) == [header + Concat(users)] + [];
    } else {
      FlushFixedBodies(header, users, false);
      VisibleOfEditThenSends(messages);
      FlushConcat(header, users);
    }
  }
}
