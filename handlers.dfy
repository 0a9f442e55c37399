/**
 * The two handlers that move credit: the text handler, which charges for a
 * generation and refunds a failed one, and the successful-payment handler,
 * which credits the amount named in the invoice payload. The generation
 * back-end, the translator and every Telegram call are outside the model:
 * a generation's outcome is a parameter, and a reply is a value saying
 * which message would be sent.
 *
 * Each handler is a method over the `Database` and is proved to end in the
 * state that the matching step function describes; the properties of the
 * credit flow are lemmas about those functions.
 */
module Handlers {
  import opened Wrappers
  import opened Text
  import opened PyInt
  import opened Tables

  /** Both tables at one moment. */
  datatype Ledger = Ledger(users: map<int, UserRow>, generations: seq<Generation>)

  /** The balance a user has once enrolled: the stored one, or the column
      default for a user seen for the first time. */
  function StartBalance(users: map<int, UserRow>, userId: int): int {
    if userId in users then users[userId].balance else DefaultBalance
  }

  function StartTotal(users: map<int, UserRow>, userId: int): int {
    if userId in users then users[userId].totalGenerations else DefaultTotalGenerations
  }

  // ---------------------------------------------------------------------
  // The table updates the handlers perform, on values
  // ---------------------------------------------------------------------

  /** The users table after `_create_user_sync` and then
      `_update_last_active_sync` for one user. */
  function Enrolled(users: map<int, UserRow>, userId: int, username: string, now: int): (r: map<int, UserRow>)
    ensures userId in r && r.Keys == users.Keys + {userId}
    ensures r[userId].balance == StartBalance(users, userId)
    ensures r[userId].totalGenerations == StartTotal(users, userId)
    ensures r[userId].lastActive == now
    ensures forall uid :: uid in users && uid != userId ==> r[uid] == users[uid]
  {
    if userId in users then users[userId := users[userId].(lastActive := now)]
    else users[userId := UserRow(username, DefaultBalance, DefaultTotalGenerations, now)]
  }

  /** The users table after `_adjust_balance_sync(userId, amount)`: only an
      existing row changes, and only its balance. */
  function Credit(users: map<int, UserRow>, userId: int, amount: int): (r: map<int, UserRow>)
    ensures r.Keys == users.Keys
    ensures forall uid :: uid in users && uid != userId ==> r[uid] == users[uid]
    ensures userId in users ==> r[userId] == users[userId].(balance := users[userId].balance + amount)
  {
    if userId in users then users[userId := users[userId].(balance := users[userId].balance + amount)] else users
  }

  /** The users table after the counter update of `_log_generation_sync`. */
  function Logged(users: map<int, UserRow>, userId: int, now: int): (r: map<int, UserRow>)
    ensures r.Keys == users.Keys
    ensures forall uid :: uid in users && uid != userId ==> r[uid] == users[uid]
    ensures userId in users ==>
      r[userId] == users[userId].(totalGenerations := users[userId].totalGenerations + 1, lastActive := now)
  {
    if userId in users
    then users[userId := users[userId].(totalGenerations := users[userId].totalGenerations + 1, lastActive := now)]
    else users
  }

  /** A first-time user has no credit, so cannot pay for a generation that
      has a positive price. */
  lemma NewUserCannotPay(users: map<int, UserRow>, userId: int, username: string, now: int, cost: int)
    requires userId !in users && cost > 0
    ensures Enrolled(users, userId, username, now)[userId].balance < cost
  {
  }

  /** A refund undoes the debit exactly. */
  lemma RefundRestores(users: map<int, UserRow>, userId: int, cost: int)
    ensures Credit(Credit(users, userId, -cost), userId, cost) == users
  {
    if userId in users {
      assert Credit(Credit(users, userId, -cost), userId, cost)[userId] == users[userId];
    }
  }

  // ---------------------------------------------------------------------
  // text_message_handler
  // ---------------------------------------------------------------------

  /** What the generation back-end answered. */
  datatype GenOutcome = Succeeded(result: string) | Failed(message: string)

  /** Which reply the text handler sends. */
  datatype TextReply =
    | Ignored               // no text: nothing is sent
    | EmptyPrompt           // the text is only whitespace
    | InsufficientStars     // the balance is below the price
    | GenerationFailed(message: string)
    | Generated(result: string)

  datatype TextResult = TextResult(reply: TextReply, after: Ledger)

  /** The kind recorded for a text-to-image generation. */
  const ImageKind := "image"

  /** After the balance check: debit first, then refund a failed generation
      or log a successful one. */
  function ChargeStep(before: Ledger, userId: int, prompt: string, now: int, cost: int, outcome: GenOutcome): (r: TextResult)
    ensures r.after.users.Keys == before.users.Keys
    ensures r.reply.Generated? <==> outcome.Succeeded?
    ensures userId in before.users ==>
      r.after.users[userId].balance == before.users[userId].balance - (if outcome.Succeeded? then cost else 0)
  {
    var debited := Credit(before.users, userId, -cost);
    match outcome
    case Failed(message) =>
      TextResult(GenerationFailed(message), Ledger(Credit(debited, userId, cost), before.generations))
    case Succeeded(result) =>
      TextResult(Generated(result),
        Ledger(Logged(debited, userId, now), before.generations + [Generation(userId, prompt, ImageKind, result, now)]))
  }

  /** One run of the text handler's credit flow, as written: the stripped
      prompt is what gets logged; a single `now` stands for the handler's
      clock reads. */
  function TextStep(before: Ledger, userId: int, username: string, text: string, now: int, cost: int, outcome: GenOutcome): (r: TextResult)
    ensures before.users.Keys <= r.after.users.Keys <= before.users.Keys + {userId}
    ensures r.after.generations ==
      if r.reply.Generated? then before.generations + [Generation(userId, Strip(text), ImageKind, r.reply.result, now)]
      else before.generations
  {
    if text == [] then TextResult(Ignored, before)
    else
      var prompt := Strip(text);
      if prompt == [] then TextResult(EmptyPrompt, before)
      else
        var users := Enrolled(before.users, userId, username, now);
        if users[userId].balance < cost then TextResult(InsufficientStars, Ledger(users, before.generations))
        else ChargeStep(Ledger(users, before.generations), userId, prompt, now, cost, outcome)
  }

  /** Without a prompt, neither table changes. */
  lemma TextWithoutPrompt(before: Ledger, userId: int, username: string, text: string, now: int, cost: int, outcome: GenOutcome)
    requires Strip(text) == []
    ensures var r := TextStep(before, userId, username, text, now, cost, outcome);
      && r.after == before
      && r.reply == (if text == [] then Ignored else EmptyPrompt)
  {
  }

  /** Below the price nothing is charged and nothing is logged. */
  lemma TextInsufficient(before: Ledger, userId: int, username: string, text: string, now: int, cost: int, outcome: GenOutcome)
    requires Strip(text) != [] && StartBalance(before.users, userId) < cost
    ensures var r := TextStep(before, userId, username, text, now, cost, outcome);
      && r.reply == InsufficientStars
      && r.after.users == Enrolled(before.users, userId, username, now)
      && r.after.users[userId].balance == StartBalance(before.users, userId)
      && r.after.generations == before.generations
  {
    assert text != [];
  }

  /** A failed generation is refunded in full and nothing is logged. */
  lemma TextFailureRefunds(before: Ledger, userId: int, username: string, text: string, now: int, cost: int, message: string)
    requires Strip(text) != [] && StartBalance(before.users, userId) >= cost
    ensures var r := TextStep(before, userId, username, text, now, cost, Failed(message));
      && r.reply == GenerationFailed(message)
      && r.after.users == Enrolled(before.users, userId, username, now)
      && r.after.users[userId].balance == StartBalance(before.users, userId)
      && r.after.generations == before.generations
  {
    assert text != [];
    RefundRestores(Enrolled(before.users, userId, username, now), userId, cost);
  }

  /** A successful generation costs exactly the price and logs exactly one
      row, which belongs to the user and carries the stripped prompt. */
  lemma TextSuccessCharges(before: Ledger, userId: int, username: string, text: string, now: int, cost: int, result: string)
    requires Strip(text) != [] && StartBalance(before.users, userId) >= cost
    ensures var r := TextStep(before, userId, username, text, now, cost, Succeeded(result));
      && r.reply == Generated(result)
      && r.after.users[userId].balance == StartBalance(before.users, userId) - cost
      && r.after.users[userId].totalGenerations == StartTotal(before.users, userId) + 1
      && r.after.generations == before.generations + [Generation(userId, Strip(text), ImageKind, result, now)]
      && RowsOf(r.after.generations, userId) == RowsOf(before.generations, userId) + 1
  {
    assert text != [];
    RowsOfAppend(before.generations, Generation(userId, Strip(text), ImageKind, result, now), userId);
  }

  /** No other user's row changes, and every row logged is the user's own. */
  lemma TextOthersUnchanged(before: Ledger, userId: int, username: string, text: string, now: int, cost: int, outcome: GenOutcome)
    ensures var r := TextStep(before, userId, username, text, now, cost, outcome);
      && r.after.users.Keys <= before.users.Keys + {userId}
      && (forall uid :: uid in before.users && uid != userId ==> r.after.users[uid] == before.users[uid])
      && (forall uid :: uid != userId ==> RowsOf(r.after.generations, uid) == RowsOf(before.generations, uid))
  {
    TextOtherRowsKept(before, userId, username, text, now, cost, outcome);
    TextOtherCountsKept(before, userId, username, text, now, cost, outcome);
  }

  lemma TextOtherRowsKept(before: Ledger, userId: int, username: string, text: string, now: int, cost: int, outcome: GenOutcome)
    ensures var r := TextStep(before, userId, username, text, now, cost, outcome);
      forall uid :: uid in before.users && uid != userId ==> r.after.users[uid] == before.users[uid]
  {
    var r := TextStep(before, userId, username, text, now, cost, outcome);
    if text != [] && Strip(text) != [] {
      var users := Enrolled(before.users, userId, username, now);
      if users[userId].balance >= cost {
        assert r == ChargeStep(Ledger(users, before.generations), userId, Strip(text), now, cost, outcome);
      }
    }
  }

  lemma TextOtherCountsKept(before: Ledger, userId: int, username: string, text: string, now: int, cost: int, outcome: GenOutcome)
    ensures var r := TextStep(before, userId, username, text, now, cost, outcome);
      forall uid :: uid != userId ==> RowsOf(r.after.generations, uid) == RowsOf(before.generations, uid)
  {
    var r := TextStep(before, userId, username, text, now, cost, outcome);
    if r.reply.Generated? {
      var g := Generation(userId, Strip(text), ImageKind, r.reply.result, now);
      forall uid | uid != userId
        ensures RowsOf(r.after.generations, uid) == RowsOf(before.generations, uid)
      {
        RowsOfAppend(before.generations, g, uid);
      }
    }
  }

  /** A non-negative balance stays non-negative, whatever the price: the
      balance check refuses any debit that would take it below zero. */
  lemma TextKeepsBalanceNonNegative(before: Ledger, userId: int, username: string, text: string, now: int, cost: int, outcome: GenOutcome)
    requires StartBalance(before.users, userId) >= 0
    ensures var r := TextStep(before, userId, username, text, now, cost, outcome);
      userId in r.after.users ==> r.after.users[userId].balance >= 0
  {
    if text != [] && Strip(text) != [] {
      var users := Enrolled(before.users, userId, username, now);
      if users[userId].balance >= cost && outcome.Failed? {
        RefundRestores(users, userId, cost);
      }
    }
  }

  /** The text handler keeps every counter within its user's rows. */
  lemma TextKeepsConsistent(before: Ledger, userId: int, username: string, text: string, now: int, cost: int, outcome: GenOutcome)
    requires Consistent(before.users, before.generations)
    ensures var r := TextStep(before, userId, username, text, now, cost, outcome);
      Consistent(r.after.users, r.after.generations)
  {
    var r := TextStep(before, userId, username, text, now, cost, outcome);
    if text == [] || Strip(text) == [] {
      assert r.after == before;
    } else {
      var users := Enrolled(before.users, userId, username, now);
      assert Consistent(users, before.generations);
      if users[userId].balance < cost {
        assert r.after == Ledger(users, before.generations);
      } else if outcome.Failed? {
        RefundRestores(users, userId, cost);
        assert r.after == Ledger(users, before.generations);
      } else {
        var g := Generation(userId, Strip(text), ImageKind, outcome.result, now);
        var after := Logged(Credit(users, userId, -cost), userId, now);
        assert r.after == Ledger(after, before.generations + [g]);
        forall uid | uid in after
          ensures 0 <= after[uid].totalGenerations <= RowsOf(before.generations + [g], uid)
        {
          RowsOfAppend(before.generations, g, uid);
        }
      }
    }
  }

  /** `text_message_handler`'s credit flow on the database. */
  method HandleText(db: Database, userId: int, username: string, text: string, now: int, cost: int, outcome: GenOutcome)
    returns (reply: TextReply)
    requires db.Valid()
    modifies db
    ensures db.Valid()
    ensures TextResult(reply, Ledger(db.users, db.generations))
         == TextStep(Ledger(old(db.users), old(db.generations)), userId, username, text, now, cost, outcome)
  {
    if text == [] {
      return Ignored;
    }
    var prompt := Strip(text);
    if prompt == [] {
      return EmptyPrompt;
    }
    Enrol(db, userId, username, now);
    var row := db.GetUser(userId);
    if row.value.balance < cost {
      return InsufficientStars;
    }
    reply := Charge(db, userId, prompt, now, cost, outcome);
  }

  /** `_create_user_sync` followed by `_update_last_active_sync`. */
  method Enrol(db: Database, userId: int, username: string, now: int)
    requires db.Valid()
    modifies db
    ensures db.Valid()
    ensures db.users == Enrolled(old(db.users), userId, username, now)
    ensures db.generations == old(db.generations)
  {
    db.CreateUser(userId, username, now);
    db.UpdateLastActive(userId, now);
  }

  /** The debit and then the refund or the log. */
  method Charge(db: Database, userId: int, prompt: string, now: int, cost: int, outcome: GenOutcome)
    returns (reply: TextReply)
    requires db.Valid()
    modifies db
    ensures db.Valid()
    ensures TextResult(reply, Ledger(db.users, db.generations))
         == ChargeStep(Ledger(old(db.users), old(db.generations)), userId, prompt, now, cost, outcome)
  {
    ghost var users0 := db.users;
    var debited := db.AdjustBalance(userId, -cost);
    assert db.users == Credit(users0, userId, -cost);
    ghost var users1 := db.users;
    match outcome {
      case Failed(message) =>
        var refunded := db.AdjustBalance(userId, cost);
        assert db.users == Credit(users1, userId, cost);
        return GenerationFailed(message);
      case Succeeded(result) =>
        db.LogGeneration(userId, prompt, ImageKind, result, now);
        assert db.users == Logged(users1, userId, now);
        return Generated(result);
    }
  }

  // ---------------------------------------------------------------------
  // successful_payment_handler
  // ---------------------------------------------------------------------

  /** Which reply the payment handler sends. */
  datatype PaymentReply =
    | Credited(amount: int)   // "topped up by N"
    | CreditedDefault         // "topped up", for any other payload
    | CreditFailed            // the payload could not be applied

  datatype PaymentResult = PaymentResult(reply: PaymentReply, users: map<int, UserRow>)

  const TopupPrefix := "topup:"

  /** Python's `s.split(sep, 1)[1]`: what follows the first separator, if
      there is one. */
  function AfterFirst(s: string, sep: char): (r: Option<string>)
    ensures r.Some? <==> sep in s
    ensures r.Some? ==>
      var i := |s| - |r.value| - 1;
      && 0 <= i && s[i] == sep && sep !in s[..i] && r.value == s[i + 1..]
  {
    if s == [] then None
    else if s[0] == sep then Some(s[1..])
    else
      assert s[1..][..|s| - 1] == s[1..];
      AfterFirst(s[1..], sep)
  }

  /** The amount a payload credits: the integer after `topup:`, or 1 for any
      other payload; `None` when the tail is not an integer, because
      `int()` raises before the balance is touched. */
  function PayloadAmount(payload: string): (r: Option<int>)
    ensures HasPrefix(TopupPrefix, payload) ==> r == ParseInt(payload[|TopupPrefix|..])
  {
    if HasPrefix(TopupPrefix, payload) then
      assert payload == TopupPrefix + payload[|TopupPrefix|..];
      TopupTail(payload[|TopupPrefix|..]);
      match AfterFirst(payload, ':')
      case Some(tail) => ParseInt(tail)
      case None => None
    else Some(1)
  }

  /** After the `topup:` prefix the split yields the rest of the payload. */
  lemma TopupTail(tail: string)
    ensures AfterFirst(TopupPrefix + tail, ':') == Some(tail)
  {
    var p := TopupPrefix + tail;
    assert p[0] == 't' && p[1] == 'o' && p[2] == 'p' && p[3] == 'u' && p[4] == 'p' && p[5] == ':';
    assert p[1..][1..][1..][1..][1..][1..] == tail;
  }

  /** `topup:N`, with N written in decimal, credits exactly N. */
  lemma TopupAmount(n: int)
    ensures PayloadAmount(TopupPrefix + FormatInt(n)) == Some(n)
  {
    var p := TopupPrefix + FormatInt(n);
    assert p[..|TopupPrefix|] == TopupPrefix;
    TopupTail(FormatInt(n));
    ParseFormatRoundTrip(n);
  }

  /** The range of a 64-bit SQLite integer; binding a Python `int` outside
      it raises `OverflowError`, which the handler catches. */
  predicate InInt64(n: int)
    ensures InInt64(n) ==> |FormatInt(n)| <= 20
  {
    var b := -0x8000_0000_0000_0000 <= n < 0x8000_0000_0000_0000;
    assert b ==> |FormatInt(n)| <= 20 by {
      if b {
        assert Pow10(10) == 10_000_000_000;
        assert Pow10(19) == 10_000_000_000_000_000_000;
        FormatNatShort(if n < 0 then -n else n, 19);
      }
    }
    b
  }

  /** One run of the payment handler. */
  function PaymentStep(users: map<int, UserRow>, userId: int, payload: string): (r: PaymentResult)
    ensures r.users.Keys == users.Keys
    ensures r.reply == CreditFailed ==> r.users == users
    ensures userId in users && r.reply.Credited? ==> r.users[userId].balance == users[userId].balance + r.reply.amount
    ensures userId in users && r.reply.CreditedDefault? ==> r.users[userId].balance == users[userId].balance + 1
  {
    match PayloadAmount(payload)
    case None => PaymentResult(CreditFailed, users)
    case Some(n) =>
      if !InInt64(n) then PaymentResult(CreditFailed, users)
      else if HasPrefix(TopupPrefix, payload) then PaymentResult(Credited(n), Credit(users, userId, n))
      else PaymentResult(CreditedDefault, Credit(users, userId, 1))
  }

  /** `topup:N` credits exactly N to the payer and says so. */
  lemma TopupCredits(users: map<int, UserRow>, userId: int, n: int)
    requires InInt64(n) && userId in users
    ensures var r := PaymentStep(users, userId, TopupPrefix + FormatInt(n));
      && r.reply == Credited(n)
      && r.users == users[userId := users[userId].(balance := users[userId].balance + n)]
  {
    TopupAmount(n);
    var p := TopupPrefix + FormatInt(n);
    assert p[..|TopupPrefix|] == TopupPrefix;
  }

  /** Any payload not starting with `topup:` credits exactly 1. */
  lemma OtherPayloadCreditsOne(users: map<int, UserRow>, userId: int, payload: string)
    requires !HasPrefix(TopupPrefix, payload) && userId in users
    ensures var r := PaymentStep(users, userId, payload);
      && r.reply == CreditedDefault
      && r.users == users[userId := users[userId].(balance := users[userId].balance + 1)]
  {
  }

  /** A `topup:` payload whose tail is not an integer changes nothing. */
  lemma BadTopupChangesNothing(users: map<int, UserRow>, userId: int, tail: string)
    requires ParseInt(tail) == None
    ensures PaymentStep(users, userId, TopupPrefix + tail) == PaymentResult(CreditFailed, users)
  {
    var p := TopupPrefix + tail;
    assert p[..|TopupPrefix|] == TopupPrefix && p[|TopupPrefix|..] == tail;
  }

  /** A payer without a row is credited nothing, yet the handler replies as
      if the credit had gone through. */
  lemma UnknownPayerNotCredited(users: map<int, UserRow>, userId: int, payload: string)
    requires userId !in users
    ensures var r := PaymentStep(users, userId, payload);
      && r.users == users
      && (r.reply == CreditFailed <==> PayloadAmount(payload).None? || !InInt64(PayloadAmount(payload).value))
  {
  }

  /** `topup:N` from a payer without a row: the reply still names N. */
  lemma UnknownPayerStillThanked(users: map<int, UserRow>, userId: int, n: int)
    requires InInt64(n) && userId !in users
    ensures PaymentStep(users, userId, TopupPrefix + FormatInt(n)) == PaymentResult(Credited(n), users)
  {
    TopupAmount(n);
    var p := TopupPrefix + FormatInt(n);
    assert p[..|TopupPrefix|] == TopupPrefix;
  }

  /** A payment touches at most the payer's balance. */
  lemma PaymentOnlyCreditsPayer(users: map<int, UserRow>, userId: int, payload: string)
    ensures var r := PaymentStep(users, userId, payload);
      && r.users.Keys == users.Keys
      && (forall uid :: uid in users && uid != userId ==> r.users[uid] == users[uid])
      && (forall uid :: uid in users ==> r.users[uid] == users[uid].(balance := r.users[uid].balance))
      && (r.reply == CreditFailed <==> r.users == users && (PayloadAmount(payload).None? || !InInt64(PayloadAmount(payload).value)))
  {
  }

  /** `_adjust_balance_sync` as the payment handler uses it, its returned
      balance unused. */
  method Deposit(db: Database, userId: int, amount: int)
    requires db.Valid()
    modifies db
    ensures db.Valid()
    ensures db.generations == old(db.generations)
    ensures db.users == Credit(old(db.users), userId, amount)
  {
    var balance := db.AdjustBalance(userId, amount);
  }

  /** `successful_payment_handler`: credit the payload's amount, or report
      that the balance could not be updated. */
  method HandlePayment(db: Database, userId: int, payload: string) returns (reply: PaymentReply)
    requires db.Valid()
    modifies db
    ensures db.Valid()
    ensures db.generations == old(db.generations)
    ensures PaymentResult(reply, db.users) == PaymentStep(old(db.users), userId, payload)
  {
    var amount := PayloadAmount(payload);
    if amount.None? || !InInt64(amount.value) {
      return CreditFailed;
    }
    if HasPrefix(TopupPrefix, payload) {
      Deposit(db, userId, amount.value);
      reply := Credited(amount.value);
    } else {
      Deposit(db, userId, 1);
      reply := CreditedDefault;
    }
  }
}
