/**
  The decision logic of the mint page (`Mint.jsx`). Each render of the page
  reads the sale state from the contract: which phase is active, the per-wallet
  caps, the prices and the connected wallet's balances. It then decides which
  mint path to show, what the quantity counter accepts, how much ether to send,
  which button to show, and which message to print under it.

  Contract reads are a `Snapshot`. A read whose `data` is still `undefined`
  (loading or failed) is `None`. All chain numbers are mathematical integers.
*/
module Mint {
  import opened Wrappers
  import opened RevertReason

  /** The contract reads and the wallet address one render sees. */
  datatype Snapshot = Snapshot(
    wlActive: Option<bool>,
    publicActive: Option<bool>,
    maxPerWl: Option<int>,
    maxPerPublic: Option<int>,
    priceWl: Option<int>,
    pricePublic: Option<int>,
    wlBalance: Option<int>,
    balance: Option<int>,
    wlStatusLoading: bool,
    publicStatusLoading: bool,
    priceWlLoading: bool,
    pricePublicLoading: bool,
    address: Option<string>)

  /** A phase flag is truthy only once it has been read as `true`. */
  predicate On(flag: Option<bool>) {
    flag == Some(true)
  }

  /** A wallet is connected when the address is present and not empty. */
  predicate Connected(s: Snapshot) {
    s.address.Some? && s.address.value != ""
  }

  /** `a >= b` on two reads: false when either is `undefined`. */
  predicate AtLeast(a: Option<int>, b: Option<int>) {
    a.Some? && b.Some? && a.value >= b.value
  }

  // ---------------------------------------------------------------------------
  // Path selection

  datatype Path = Whitelist | Public

  /** The whitelist path is shown whenever the whitelist phase is active. */
  function RenderedPath(s: Snapshot): (p: Path)
    ensures p == Whitelist <==> On(s.wlActive)
  {
    if On(s.wlActive) then Whitelist else Public
  }

  /** Whitelist priority: the public phase flag never changes which path is shown. */
  lemma PathIgnoresPublic(s: Snapshot, flag: Option<bool>)
    ensures RenderedPath(s.(publicActive := flag)) == RenderedPath(s)
  {
  }

  // ---------------------------------------------------------------------------
  // Quantity counter

  /** The cap the counter uses: the whitelist cap, else the public cap, else 8. */
  function CounterCap(s: Snapshot): Option<int> {
    if On(s.wlActive) then s.maxPerWl
    else if On(s.publicActive) then s.maxPerPublic
    else Some(8)
  }

  /** The balance the counter subtracts: the whitelist balance in the whitelist phase, else the public one. */
  function CounterBalance(s: Snapshot): Option<int> {
    if On(s.wlActive) then s.wlBalance else s.balance
  }

  /** How many more tokens the wallet may mint; `None` stands for the `NaN` an `undefined` read produces. */
  function Allowance(s: Snapshot): (a: Option<int>)
    ensures a.Some? <==> CounterCap(s).Some? && CounterBalance(s).Some?
  {
    match (CounterCap(s), CounterBalance(s))
    case (Some(cap), Some(bal)) => Some(cap - bal)
    case _ => None
  }

  /**
    `handleMintCount` with the cap and balance as numbers: the proposed count
    is taken when it is positive and within the allowance, and otherwise the
    count stays as it was.
  */
  function HandleMintCount(s: Snapshot, count: int, proposed: int): (r: int)
    ensures r == proposed || r == count
    ensures r != count ==> 0 < r && Allowance(s).Some? && r <= Allowance(s).value
  {
    match Allowance(s)
    case Some(max) => if 0 < proposed <= max then proposed else count
    case None => count
  }

  /** A proposal is accepted exactly when it is positive and within the allowance. */
  lemma HandleMintCountAccepts(s: Snapshot, count: int, proposed: int)
    ensures HandleMintCount(s, count, proposed) == proposed <==>
      proposed == count || (Allowance(s).Some? && 0 < proposed <= Allowance(s).value)
  {
  }

  /** The counter's buttons: "+" proposes one more, "-" one fewer, against the snapshot of that render. */
  datatype Press = Plus(s: Snapshot) | Minus(s: Snapshot)

  /** One press: "+" may only raise the count by one, "-" may only lower it by one, and a new count is positive and allowed. */
  function Step(count: int, p: Press): (r: int)
    ensures p.Plus? ==> r == count || r == count + 1
    ensures p.Minus? ==> r == count || r == count - 1
    ensures r != count ==> 0 < r && Allowance(p.s).Some? && r <= Allowance(p.s).value
  {
    match p
    case Plus(s) => HandleMintCount(s, count, count + 1)
    case Minus(s) => HandleMintCount(s, count, count - 1)
  }

  /**
    The count after a sequence of presses: either the starting count or a
    positive one, so a counter started at 1 never drops below 1; and each
    press moves it by at most one.
  */
  function Run(count: int, ps: seq<Press>): (r: int)
    ensures r == count || 0 < r
    ensures count - |ps| <= r <= count + |ps|
    decreases |ps|
  {
    if ps == [] then count else Run(Step(count, ps[0]), ps[1..])
  }

  /** The count starts at 1. */
  const InitialCount: int := 1

  /** With no positive allowance at any press, the count never changes. */
  lemma {:induction false} RunFrozen(count: int, ps: seq<Press>)
    requires forall k :: 0 <= k < |ps| ==> Allowance(ps[k].s).None? || Allowance(ps[k].s).value <= 0
    ensures Run(count, ps) == count
    decreases |ps|
  {
    if ps != [] {
      assert Step(count, ps[0]) == count;
      RunFrozen(count, ps[1..]);
    }
  }

  /** A count other than the starting one was accepted against the allowance of some press. */
  lemma {:induction false} RunWithinSomeAllowance(count: int, ps: seq<Press>)
    ensures var r := Run(count, ps);
      r == count || exists k :: 0 <= k < |ps| && Allowance(ps[k].s).Some? && r <= Allowance(ps[k].s).value
    decreases |ps|
  {
    if ps != [] {
      var c := Step(count, ps[0]);
      RunWithinSomeAllowance(c, ps[1..]);
      var r := Run(count, ps);
      if r != c {
        var k :| 0 <= k < |ps[1..]| && Allowance(ps[1..][k].s).Some? && r <= Allowance(ps[1..][k].s).value;
        assert ps[1..][k] == ps[k + 1];
      }
    }
  }

  /** In the whitelist phase with cap 5 and 3 already minted, "+" reaches 2 and then stops. */
  lemma CounterExample(s: Snapshot)
    requires On(s.wlActive) && s.maxPerWl == Some(5) && s.wlBalance == Some(3)
    ensures Run(InitialCount, [Plus(s)]) == 2
    ensures Run(InitialCount, [Plus(s), Plus(s)]) == 2
    ensures Run(InitialCount, [Plus(s), Minus(s), Minus(s)]) == 1
  {
    assert [Plus(s), Plus(s)][1..] == [Plus(s)];
    assert [Plus(s), Minus(s), Minus(s)][1..] == [Minus(s), Minus(s)];
    assert [Minus(s), Minus(s)][1..] == [Minus(s)];
    assert Run(2, [Minus(s), Minus(s)]) == Run(1, [Minus(s)]);
    assert Run(1, [Minus(s)]) == 1;
  }

  // ---------------------------------------------------------------------------
  // Payment value

  const MixedTypes: string := "TypeError: Cannot mix BigInt and other types"
  const NotConvertible: string := "TypeError: Cannot convert undefined to a BigInt"

  /**
    The ether sent with a mint: `BigInt(loading ? 0 : price) * BigInt(count)`.
    A price that is no longer loading but was never read makes `BigInt` throw.
  */
  function PaymentValue(priceLoading: bool, price: Option<int>, count: int): (r: Result<int, string>)
    ensures priceLoading ==> r == Success(0)
    ensures !priceLoading && price.None? ==> r == Failure(NotConvertible)
    ensures r.Success? <==> priceLoading || price.Some?
  {
    if priceLoading then Success(0)
    else match price
      case Some(p) => Success(p * count)
      case None => Failure(NotConvertible)
  }

  /** The price of the shown path can be converted: it is still loading (then 0 is sent) or it was read. */
  predicate PriceReadable(s: Snapshot) {
    match RenderedPath(s)
    case Whitelist => s.priceWlLoading || s.priceWl.Some?
    case Public => s.pricePublicLoading || s.pricePublic.Some?
  }

  /** The payment for the path that is shown: whitelist price or public price. */
  function PathPayment(s: Snapshot, count: int): (r: Result<int, string>)
    ensures r.Success? <==> PriceReadable(s)
    ensures r.Failure? ==> r.error == NotConvertible
    ensures On(s.wlActive) && !s.priceWlLoading && s.priceWl.Some? ==> r == Success(s.priceWl.value * count)
    ensures !On(s.wlActive) && !s.pricePublicLoading && s.pricePublic.Some? ==> r == Success(s.pricePublic.value * count)
  {
    match RenderedPath(s)
    case Whitelist => PaymentValue(s.priceWlLoading, s.priceWl, count)
    case Public => PaymentValue(s.pricePublicLoading, s.pricePublic, count)
  }

  /** The payment is linear in the count: minting `a + b` costs what minting `a` and `b` separately costs. */
  lemma PaymentAdditive(priceLoading: bool, price: Option<int>, a: int, b: int)
    requires PaymentValue(priceLoading, price, a).Success?
    ensures PaymentValue(priceLoading, price, a + b).Success?
    ensures PaymentValue(priceLoading, price, a + b).value ==
      PaymentValue(priceLoading, price, a).value + PaymentValue(priceLoading, price, b).value
  {
    if !priceLoading {
      var p := price.value;
      assert p * (a + b) == p * a + p * b;
    }
  }

  /** One token costs the price; the payment for `count` tokens is `count` times that. */
  lemma PaymentPerToken(price: int, count: int)
    ensures PaymentValue(false, Some(price), 1) == Success(price)
    ensures PaymentValue(false, Some(price), count).value == count * PaymentValue(false, Some(price), 1).value
  {
  }

  /** A large price is multiplied exactly, with no rounding. */
  lemma PaymentExample()
    ensures PaymentValue(false, Some(123456789012345678), 7) == Success(864197523086419746)
  {
  }

  // ---------------------------------------------------------------------------
  // Buttons and messages

  /** The state of the mint transaction as the page sees it. */
  datatype TxView = TxView(writeLoading: bool, waitLoading: bool, reverted: bool, succeeded: bool)

  /** A proof as the realtime database returns it, with JavaScript truthiness. */
  datatype Data = Null | Text(text: string) | Num(n: int) | Flag(b: bool) | List(leaves: seq<string>) | Object

  predicate Truthy(d: Data) {
    match d
    case Null => false
    case Text(t) => t != ""
    case Num(n) => n != 0
    case Flag(b) => b
    case List(_) => true
    case Object => true
  }

  datatype Button = Soon | Spinner | NotWhitelisted | MintButton(disabled: bool)

  /** Whether the wallet has reached the whitelist cap. */
  predicate WlLimit(s: Snapshot) {
    On(s.wlActive) && AtLeast(s.wlBalance, s.maxPerWl)
  }

  /** Whether the wallet has reached the public cap. */
  predicate PublicLimit(s: Snapshot) {
    On(s.publicActive) && AtLeast(s.balance, s.maxPerPublic)
  }

  /** Something the whitelist path waits for is loading: the mint write, its status, its price, or the receipt. */
  predicate WlLoading(s: Snapshot, tx: TxView) {
    tx.writeLoading || s.wlStatusLoading || s.priceWlLoading || tx.waitLoading
  }

  /** Something the public path waits for is loading. */
  predicate PublicLoading(s: Snapshot, tx: TxView) {
    tx.writeLoading || s.publicStatusLoading || s.pricePublicLoading || tx.waitLoading
  }

  /** The whitelist path's button, decided in order: phase off, loading, no proof, then Mint. */
  function WhitelistButton(s: Snapshot, proof: Data, tx: TxView): (b: Button)
    ensures b == Soon <==> !On(s.wlActive)
    ensures b == Spinner <==> On(s.wlActive) && WlLoading(s, tx)
    ensures b == NotWhitelisted <==> On(s.wlActive) && !WlLoading(s, tx) && !Truthy(proof)
    ensures b.MintButton? ==> Truthy(proof) && (b.disabled <==> WlLimit(s) || !Connected(s))
  {
    if !On(s.wlActive) then Soon
    else if WlLoading(s, tx) then Spinner
    else if !Truthy(proof) then NotWhitelisted
    else MintButton(WlLimit(s) || !Connected(s))
  }

  /** The public path's button, decided in order: phase off, loading, then Mint. */
  function PublicButton(s: Snapshot, tx: TxView): (b: Button)
    ensures b != NotWhitelisted
    ensures b == Soon <==> !On(s.publicActive)
    ensures b == Spinner <==> On(s.publicActive) && PublicLoading(s, tx)
    ensures b.MintButton? ==> (b.disabled <==> PublicLimit(s) || !Connected(s))
  {
    if !On(s.publicActive) then Soon
    else if PublicLoading(s, tx) then Spinner
    else MintButton(PublicLimit(s) || !Connected(s))
  }

  const NotIterable: string := "TypeError: proofWl is not iterable"

  /** Whether `[...d]` succeeds: strings and arrays are iterable; null, numbers, booleans and plain objects are not. */
  predicate Iterable(d: Data) {
    d.Text? || d.List?
  }

  /**
    The button the page shows, or the error its render throws. The shown
    path first evaluates its write arguments, which no branch guards: on the
    whitelist path the spread of the proof, then on either path the
    conversion of the price to `BigInt`. Nothing catches an error thrown here.
  */
  function ShownButton(s: Snapshot, proof: Data, tx: TxView): (r: Result<Button, string>)
    ensures r.Success? ==> PriceReadable(s)
    ensures r.Success? && On(s.wlActive) ==> Iterable(proof) && r.value == WhitelistButton(s, proof, tx)
    ensures r.Success? && !On(s.wlActive) ==> r.value == PublicButton(s, tx)
  {
    match RenderedPath(s)
    case Whitelist =>
      if !Iterable(proof) then Failure(NotIterable)
      else if !PriceReadable(s) then Failure(NotConvertible)
      else Success(WhitelistButton(s, proof, tx))
    case Public =>
      if !PriceReadable(s) then Failure(NotConvertible)
      else Success(PublicButton(s, tx))
  }

  /**
    The render throws exactly when the payment for any count cannot be
    computed or, on the whitelist path, the proof cannot be spread; the
    spread comes first, so its error is the one seen when both fail.
  */
  lemma RenderThrowsIff(s: Snapshot, proof: Data, tx: TxView, count: int)
    ensures ShownButton(s, proof, tx).Failure? <==>
      PathPayment(s, count).Failure? || (On(s.wlActive) && !Iterable(proof))
    ensures On(s.wlActive) && !Iterable(proof) ==> ShownButton(s, proof, tx) == Failure(NotIterable)
    ensures ShownButton(s, proof, tx).Failure? && (!On(s.wlActive) || Iterable(proof)) ==>
      ShownButton(s, proof, tx) == Failure(PathPayment(s, count).error)
  {
  }

  /** Before any snapshot arrives, the whitelist path renders once its price is readable: the empty string spreads. */
  lemma InitialProofRenders(s: Snapshot, tx: TxView)
    requires PriceReadable(s)
    ensures ShownButton(s, InitialProof, tx).Success?
  {
  }

  /** "Soon !" is shown exactly when neither phase is active and the public price can be converted. */
  lemma SoonIffInactive(s: Snapshot, proof: Data, tx: TxView)
    ensures ShownButton(s, proof, tx) == Success(Soon) <==>
      !On(s.wlActive) && !On(s.publicActive) && (s.pricePublicLoading || s.pricePublic.Some?)
  {
  }

  /**
    An enabled Mint button means: a phase is active, nothing loads, the
    price was read, a spreadable proof is held on the whitelist path, the
    cap is not reached, and a wallet is connected.
  */
  lemma MintEnabledIff(s: Snapshot, proof: Data, tx: TxView)
    ensures ShownButton(s, proof, tx) == Success(MintButton(false)) <==>
      && !tx.writeLoading && !tx.waitLoading && Connected(s)
      && (On(s.wlActive) ==>
            && !s.wlStatusLoading && !s.priceWlLoading && s.priceWl.Some?
            && Truthy(proof) && Iterable(proof) && !AtLeast(s.wlBalance, s.maxPerWl))
      && (!On(s.wlActive) ==>
            && On(s.publicActive) && !s.publicStatusLoading && !s.pricePublicLoading && s.pricePublic.Some?
            && !AtLeast(s.balance, s.maxPerPublic))
  {
  }

  /**
    The spinner shows exactly when the shown path's phase is active and
    something it waits for loads, provided the render gets that far.
  */
  lemma SpinnerIffLoading(s: Snapshot, proof: Data, tx: TxView)
    ensures ShownButton(s, proof, tx) == Success(Spinner) <==>
      if On(s.wlActive) then Iterable(proof) && WlLoading(s, tx) && (s.priceWlLoading || s.priceWl.Some?)
      else On(s.publicActive) && PublicLoading(s, tx) && (s.pricePublicLoading || s.pricePublic.Some?)
  {
  }

  /** While the shown path's price loads, its active phase shows the spinner whatever the proof says, once it spreads. */
  lemma PriceLoadingSpins(s: Snapshot, proof: Data, tx: TxView)
    requires On(s.wlActive) ==> s.priceWlLoading && Iterable(proof)
    requires !On(s.wlActive) ==> On(s.publicActive) && s.pricePublicLoading
    ensures ShownButton(s, proof, tx) == Success(Spinner)
  {
  }

  /** "Minting limit reached !": the wallet is at the cap of either active phase. */
  predicate LimitReached(s: Snapshot) {
    WlLimit(s) || PublicLimit(s)
  }

  /** The page renders with a Mint button. */
  predicate ShowsMint(s: Snapshot, proof: Data, tx: TxView) {
    var r := ShownButton(s, proof, tx);
    r.Success? && r.value.MintButton?
  }

  /** The text under the Mint button. */
  datatype Panel = LimitWarning | ErrorLine(reason: string, revertNotice: bool)

  /**
    The panel under the Mint button, present only when a Mint button is
    shown: the limit warning, else the shortened error (when there is one and
    a wallet is connected) and the notice for a reverted transaction.
  */
  function ShownPanel(s: Snapshot, proof: Data, tx: TxView, error: string): (p: Option<Panel>)
    ensures p.Some? <==> ShowsMint(s, proof, tx)
  {
    if !ShowsMint(s, proof, tx) then None
    else if LimitReached(s) then Some(LimitWarning)
    else Some(ErrorLine(if error != "" && Connected(s) then CutString(error) else "", tx.reverted))
  }

  /** The warning and the error line exclude each other; the error line is empty without a wallet. */
  lemma PanelCases(s: Snapshot, proof: Data, tx: TxView, error: string)
    requires ShowsMint(s, proof, tx)
    ensures ShownPanel(s, proof, tx, error) == Some(LimitWarning) <==> LimitReached(s)
    ensures !LimitReached(s) && !Connected(s) ==> ShownPanel(s, proof, tx, error) == Some(ErrorLine("", tx.reverted))
    ensures !LimitReached(s) && Connected(s) && error != "" ==>
      ShownPanel(s, proof, tx, error) == Some(ErrorLine(CutString(error), tx.reverted))
  {
  }

  /** A Mint button disabled by the cap of its own path always comes with the limit warning. */
  lemma DisabledByCapWarns(s: Snapshot, proof: Data, tx: TxView, error: string)
    requires ShowsMint(s, proof, tx) && Connected(s)
    requires ShownButton(s, proof, tx).value.disabled
    ensures ShownPanel(s, proof, tx, error) == Some(LimitWarning)
  {
  }

  /** The whitelist status line: shown in the whitelist phase with a wallet connected; `true` for "You are whitelisted !". */
  function WhitelistStatus(s: Snapshot, proof: Data): (m: Option<bool>)
    ensures m.Some? <==> On(s.wlActive) && Connected(s)
    ensures m.Some? ==> (m.value <==> Truthy(proof))
  {
    if On(s.wlActive) && Connected(s) then Some(Truthy(proof)) else None
  }

  /**
    The status line as the page displays it. A throw while rendering the
    mint path is caught by no error boundary, so the whole tree unmounts and
    the line disappears together with the button.
  */
  function PageStatus(s: Snapshot, proof: Data, tx: TxView): (m: Option<bool>)
    ensures m.Some? <==> On(s.wlActive) && Connected(s) && ShownButton(s, proof, tx).Success?
    ensures m.Some? ==> (m.value <==> Truthy(proof))
    ensures ShownButton(s, proof, tx).Success? ==> m == WhitelistStatus(s, proof)
  {
    if ShownButton(s, proof, tx).Failure? then None else WhitelistStatus(s, proof)
  }

  /** "You are whitelisted !" is displayed only with a proof that spreads: a non-empty string or an array. */
  lemma WhitelistedLineProof(s: Snapshot, proof: Data, tx: TxView)
    requires PageStatus(s, proof, tx) == Some(true)
    ensures (proof.Text? && proof.text != "") || proof.List?
  {
  }

  /**
    Once nothing loads, the "Not WL" button appears exactly with the "not
    whitelisted" line, provided the render gets that far: the empty string is
    the only proof that is both falsy and spreadable.
  */
  lemma NotWhitelistedAgree(s: Snapshot, proof: Data, tx: TxView)
    requires On(s.wlActive) && Connected(s)
    requires !tx.writeLoading && !tx.waitLoading && !s.wlStatusLoading && !s.priceWlLoading
    ensures ShownButton(s, proof, tx) == Success(NotWhitelisted) <==>
      WhitelistStatus(s, proof) == Some(false) && Iterable(proof) && s.priceWl.Some?
    ensures ShownButton(s, proof, tx) == Success(NotWhitelisted) ==> proof == Text("")
  {
  }

  // ---------------------------------------------------------------------------
  // Proof updates

  /** The proof before any database snapshot arrives: the empty string. */
  const InitialProof: Data := Text("")

  /** The subscription callback: a snapshot replaces the proof only when its value is truthy. */
  function OnProofSnapshot(proof: Data, data: Data): (r: Data)
    ensures Truthy(data) ==> r == data
    ensures !Truthy(data) ==> r == proof
  {
    if Truthy(data) then data else proof
  }

  /** The proof after a sequence of snapshots, from any subscription. */
  function Replay(proof: Data, events: seq<Data>): (r: Data)
    ensures r == proof || (Truthy(r) && r in events)
    decreases |events|
  {
    if events == [] then proof else Replay(OnProofSnapshot(proof, events[0]), events[1..])
  }

  /** The last truthy snapshot, or `|events|` when there is none. */
  function LastTruthy(events: seq<Data>): (r: nat)
    ensures r <= |events|
    ensures r < |events| ==> Truthy(events[r])
    ensures forall k :: r < k < |events| ==> !Truthy(events[k])
    ensures r == |events| ==> forall k :: 0 <= k < |events| ==> !Truthy(events[k])
  {
    if events == [] then 0
    else if Truthy(events[|events| - 1]) then |events| - 1
    else
      var r := LastTruthy(events[..|events| - 1]);
      if r == |events| - 1 then |events| else r
  }

  /** Replaying appends: the proof after `events + [d]` is the update of the proof after `events`. */
  lemma {:induction false} ReplaySnoc(proof: Data, events: seq<Data>, d: Data)
    ensures Replay(proof, events + [d]) == OnProofSnapshot(Replay(proof, events), d)
    decreases |events|
  {
    if events != [] {
      assert (events + [d])[1..] == events[1..] + [d];
      ReplaySnoc(OnProofSnapshot(proof, events[0]), events[1..], d);
    }
  }

  /** The proof is the last truthy snapshot, or the starting proof when every snapshot was falsy. */
  lemma {:induction false} ReplayIsLastTruthy(proof: Data, events: seq<Data>)
    ensures var k := LastTruthy(events);
      Replay(proof, events) == if k < |events| then events[k] else proof
  {
    if events != [] {
      var init := events[..|events| - 1];
      var d := events[|events| - 1];
      assert events == init + [d];
      ReplayIsLastTruthy(proof, init);
      ReplaySnoc(proof, init, d);
    }
  }

  /** A proof once held is never reset to an empty one. */
  lemma {:induction false} ReplayKeepsProof(proof: Data, events: seq<Data>)
    requires Truthy(proof)
    ensures Truthy(Replay(proof, events))
    decreases |events|
  {
    if events != [] {
      ReplayKeepsProof(OnProofSnapshot(proof, events[0]), events[1..]);
    }
  }

  // ---------------------------------------------------------------------------
  // handleMintCount as written

  /**
    `handleMintCount` as the page computes it: the cap is converted with
    `Number(...)` but the balance is subtracted as read. Contract reads of
    `uint256` values are `bigint`s, and `Number - bigint` throws a TypeError;
    an `undefined` balance gives `NaN`, which no comparison accepts.
  */
  function HandleMintCountAsWritten(s: Snapshot, count: int, proposed: int): (r: Result<int, string>)
    ensures r.Success? ==> r.value == count
  {
    match CounterBalance(s)
    case Some(_) => Failure(MixedTypes)
    case None => Success(count)
  }

  /** As written, "+" never changes the count: with the balance read it throws, without it nothing is accepted. */
  lemma AsWrittenCounterStuck(s: Snapshot, count: int)
    requires CounterBalance(s).Some?
    ensures HandleMintCountAsWritten(s, count, count + 1) == Failure(MixedTypes)
  {
  }

  /** With cap 5 and 3 minted, "+" from 1 should give 2; as written it throws. */
  lemma AsWrittenCounterExample(s: Snapshot)
    requires On(s.wlActive) && s.maxPerWl == Some(5) && s.wlBalance == Some(3)
    ensures HandleMintCount(s, 1, 2) == 2
    ensures HandleMintCountAsWritten(s, 1, 2).Failure?
  {
  }
}
