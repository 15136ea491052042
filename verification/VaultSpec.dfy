/** The vault contract as a value and its transactions as functions, and what holds over every run of them. */
module VaultSpec {
  import opened Wrappers
  import opened Members
  import opened Hashing
  import opened MerkleSpec
  import opened Sums

  const TWO_256: nat := 0x1_0000000000000000_0000000000000000_0000000000000000_0000000000000000
  type Word = x: nat | x < TWO_256 witness 0

  const ONE_ETHER: nat := 1_000_000_000_000_000_000
  const ZERO_ADDRESS: Address := 0
  const MAX_UINT8: nat := 255

  datatype Error =
    | Overwrite | NotPermitted | OnlyOwner | BadAdminFee
    | BlockNotFound | BadProof | OutOfGas
    | Frozen | OldEarnings | MissingBalance | Overflow
    | ZeroWithdraw | Overdraft | TransferFailed
    | BadSignature | BadSignatureLength | BadSignatureVersion

  datatype Vault = Vault(
    self: Address,
    owner: Address,
    operator: Address,
    adminFee: nat,
    blockFreezeSeconds: nat,
    committedHash: map<nat, Digest>,
    blockTimestamp: map<nat, nat>,
    totalWithdrawn: nat,
    totalProven: nat,
    earnings: map<Address, nat>,
    withdrawn: map<Address, nat>,
    tokens: map<Address, nat>)   // balances in the token contract

  /** What a member signs to let someone else withdraw for it. */
  datatype Message = Message(recipient: Address, amount: nat, contract: Address, withdrawn: nat)

  datatype Signature = Signature(length: nat, r: nat, s: nat, v: nat)

  /** The signer that a signature recovers to for a message. */
  type Recover = (Message, Signature) -> Address

  datatype Call =
    | Commit(blockNumber: nat, rootHash: Digest)
    | Prove(blockNumber: nat, account: Address, balance: Word, proof: seq<Digest>)
    | Withdraw(amount: Word)
    | WithdrawFor(recipient: Address, amount: Word)
    | WithdrawTo(recipient: Address, amount: Word)
    | WithdrawToSigned(recipient: Address, signer: Address, amount: Word, signature: Signature)
    | WithdrawAll(blockNumber: nat, totalEarnings: Word, proof: seq<Digest>)
    | WithdrawAllFor(recipient: Address, blockNumber: nat, totalEarnings: Word, proof: seq<Digest>)
    | WithdrawAllTo(recipient: Address, blockNumber: nat, totalEarnings: Word, proof: seq<Digest>)
    | WithdrawAllToSigned(recipient: Address, signer: Address, signature: Signature, blockNumber: nat,
        totalEarnings: Word, proof: seq<Digest>)
    | ProveAndWithdrawToSigned(recipient: Address, signer: Address, amount: Word, signature: Signature,
        blockNumber: nat, totalEarnings: Word, proof: seq<Digest>)
    | SetOperator(newOperator: Address)
    | SetAdminFee(newAdminFee: Word)
    | TransferTokens(to: Address, amount: Word)   // a call to the token contract
    | MintTokens(to: Address, amount: Word)       // a call to the token contract

  datatype Tx = Tx(sender: Address, now: nat, call: Call)

  // ----- SafeMath

  function SafeAdd(a: nat, b: nat): Result<nat, Error> {
    var c := (a + b) % TWO_256;
    if c >= a then Success(c) else Failure(Overflow)
  }

  function SafeSub(a: nat, b: nat): Result<nat, Error> {
    if b <= a then Success(a - b) else Failure(Overflow)
  }

  lemma SafeAddIs(a: nat, b: nat)
    requires a < TWO_256 && b < TWO_256
    ensures SafeAdd(a, b) == if a + b < TWO_256 then Success(a + b) else Failure(Overflow)
  {
    if a + b >= TWO_256 {
      assert (a + b) % TWO_256 == a + b - TWO_256;
    }
  }

  // ----- BalanceVerifier

  function CommitBlock(v: Vault, tx: Tx, blockNumber: nat, rootHash: Digest): Result<Vault, Error> {
    if HashAt(v, blockNumber) != Zero then Failure(Overwrite)
    else if tx.sender != v.operator then Failure(NotPermitted)
    else Success(v.(blockTimestamp := v.blockTimestamp[blockNumber := tx.now],
                    committedHash := v.committedHash[blockNumber := rootHash]))
  }

  function HashAt(v: Vault, blockNumber: nat): Digest {
    if blockNumber in v.committedHash then v.committedHash[blockNumber] else Zero
  }

  function TimestampAt(v: Vault, blockNumber: nat): nat {
    if blockNumber in v.blockTimestamp then v.blockTimestamp[blockNumber] else 0
  }

  /** The 8-bit loop counter after n turns. */
  function Counter(n: nat): nat {
    if n == 0 then 0 else (Counter(n - 1) + 1) % (MAX_UINT8 + 1)
  }

  lemma {:induction false} CounterIs(n: nat)
    ensures Counter(n) <= MAX_UINT8
    ensures n <= MAX_UINT8 ==> Counter(n) == n
  {
    if n > 0 {
      CounterIs(n - 1);
      Increment(Counter(n - 1));
    }
  }

  lemma Increment(i: nat)
    requires i <= MAX_UINT8
    ensures (i + 1) % (MAX_UINT8 + 1) == if i == MAX_UINT8 then 0 else i + 1
  {
  }

  /** The loop over a proof ends, because the counter reaches the proof's length, exactly for proofs of up to 255
      hashes. */
  lemma CounterEndsExactlyUpTo(length: nat)
    ensures (exists n :: Counter(n) >= length) <==> length <= MAX_UINT8
  {
    CounterIs(length);
    assert length <= MAX_UINT8 ==> Counter(length) >= length;
    forall n | Counter(n) >= length ensures length <= MAX_UINT8 {
      CounterIs(n);
    }
  }

  /** A proof of more than 255 hashes makes the 8-bit loop counter wrap around until the gas runs out. */
  function CalculateRootHash(leafHash: Digest, others: seq<Digest>): Result<Digest, Error> {
    if |others| > MAX_UINT8 then Failure(OutOfGas) else Success(Fold(leafHash, others))
  }

  function ProofIsCorrect(v: Vault, blockNumber: nat, account: Address, balance: Word,
                          proof: seq<Digest>): Result<bool, Error> {
    if HashAt(v, blockNumber) == Zero then Failure(BlockNotFound)
    else
      match CalculateRootHash(LeafHash(account, balance, blockNumber), proof)
      case Failure(e) => Failure(e)
      case Success(root) => Success(HashAt(v, blockNumber) == root)
  }

  function ProveBalance(v: Vault, now: nat, blockNumber: nat, account: Address, balance: Word,
                        proof: seq<Digest>): Result<Vault, Error> {
    match ProofIsCorrect(v, blockNumber, account, balance, proof)
    case Failure(e) => Failure(e)
    case Success(correct) =>
      if !correct then Failure(BadProof) else OnVerifySuccess(v, now, blockNumber, account, balance)
  }

  // ----- Monoplasma

  predicate IsFrozen(v: Vault, now: nat, blockNumber: nat) {
    now <= (TimestampAt(v, blockNumber) + v.blockFreezeSeconds) % TWO_256
  }

  function OnVerifySuccess(v: Vault, now: nat, blockNumber: nat, account: Address,
                           newEarnings: Word): Result<Vault, Error> {
    if IsFrozen(v, now, blockNumber) then Failure(Frozen)
    else if newEarnings <= Get(v.earnings, account) then Failure(OldEarnings)
    else
      match SafeAdd(v.totalProven, newEarnings)
      case Failure(e) => Failure(e)
      case Success(sum) =>
        match SafeSub(sum, Get(v.earnings, account))
        case Failure(e) => Failure(e)
        case Success(proven) =>
          match SafeSub(proven, v.totalWithdrawn)
          case Failure(e) => Failure(e)
          case Success(needed) =>
            if needed > Get(v.tokens, v.self) then Failure(MissingBalance)
            else Success(v.(totalProven := proven, earnings := v.earnings[account := newEarnings]))
  }

  /** An honest ERC-20 moves exactly the amount, or refuses. */
  function TokenTransfer(tokens: map<Address, nat>, from: Address,
                         to: Address, amount: nat): Result<map<Address, nat>, Error> {
    if to == ZERO_ADDRESS || Get(tokens, from) < amount then Failure(TransferFailed)
    else
      var debited := tokens[from := Get(tokens, from) - amount];
      Success(debited[to := Get(debited, to) + amount])
  }

  function DoWithdraw(v: Vault, recipient: Address, account: Address, amount: Word): Result<Vault, Error> {
    if amount == 0 then Failure(ZeroWithdraw)
    else
      match SafeAdd(Get(v.withdrawn, account), amount)
      case Failure(e) => Failure(e)
      case Success(w) =>
        if w > Get(v.earnings, account) then Failure(Overdraft)
        else
          match SafeAdd(v.totalWithdrawn, amount)
          case Failure(e) => Failure(e)
          case Success(total) =>
            match TokenTransfer(v.tokens, v.self, recipient, amount)
            case Failure(e) => Failure(e)
            case Success(tokens) =>
              Success(v.(withdrawn := v.withdrawn[account := w], totalWithdrawn := total, tokens := tokens))
  }

  /** Prove, then withdraw all that is then withdrawable from the account to the recipient. */
  function ProveAndWithdrawAll(v: Vault, now: nat, recipient: Address, account: Address, blockNumber: nat,
                               totalEarnings: Word, proof: seq<Digest>): Result<Vault, Error> {
    match ProveBalance(v, now, blockNumber, account, totalEarnings, proof)
    case Failure(e) => Failure(e)
    case Success(proven) =>
      match SafeSub(totalEarnings, Get(proven.withdrawn, account))
      case Failure(e) => Failure(e)
      case Success(withdrawable) => DoWithdraw(proven, recipient, account, withdrawable)
  }

  /** The message that a signature must authorize: it names how much the signer has withdrawn so far. */
  function MessageFor(v: Vault, recipient: Address, signer: Address, amount: Word): Message {
    Message(recipient, amount, v.self, Get(v.withdrawn, signer))
  }

  function CheckSignature(v: Vault, ecrecover: Recover, recipient: Address, signer: Address, amount: Word,
                          signature: Signature): Result<bool, Error> {
    if signature.length != 65 then Failure(BadSignatureLength)
    else
      var version := if signature.v < 27 then signature.v + 27 else signature.v;
      if version != 27 && version != 28 then Failure(BadSignatureVersion)
      else if ecrecover(MessageFor(v, recipient, signer, amount), signature) != signer then Failure(BadSignature)
      else Success(true)
  }

  // ----- transactions

  function Execute(v: Vault, ecrecover: Recover, tx: Tx): Result<Vault, Error> {
    match tx.call
    case Commit(blockNumber, rootHash) => CommitBlock(v, tx, blockNumber, rootHash)
    case Prove(blockNumber, account, balance, proof) => ProveBalance(v, tx.now, blockNumber, account, balance, proof)
    case Withdraw(amount) => DoWithdraw(v, tx.sender, tx.sender, amount)
    case WithdrawFor(recipient, amount) => DoWithdraw(v, recipient, recipient, amount)
    case WithdrawTo(recipient, amount) => DoWithdraw(v, recipient, tx.sender, amount)
    case WithdrawToSigned(recipient, signer, amount, signature) =>
      (match CheckSignature(v, ecrecover, recipient, signer, amount, signature)
       case Failure(e) => Failure(e)
       case Success(_) => DoWithdraw(v, recipient, signer, amount))
    case WithdrawAll(blockNumber, totalEarnings, proof) =>
      ProveAndWithdrawAll(v, tx.now, tx.sender, tx.sender, blockNumber, totalEarnings, proof)
    case WithdrawAllFor(recipient, blockNumber, totalEarnings, proof) =>
      ProveAndWithdrawAll(v, tx.now, recipient, recipient, blockNumber, totalEarnings, proof)
    case WithdrawAllTo(recipient, blockNumber, totalEarnings, proof) =>
      ProveAndWithdrawAll(v, tx.now, recipient, tx.sender, blockNumber, totalEarnings, proof)
    case WithdrawAllToSigned(recipient, signer, signature, blockNumber, totalEarnings, proof) =>
      (match CheckSignature(v, ecrecover, recipient, signer, 0, signature)
       case Failure(e) => Failure(e)
       case Success(_) => ProveAndWithdrawAll(v, tx.now, recipient, signer, blockNumber, totalEarnings, proof))
    case ProveAndWithdrawToSigned(recipient, signer, amount, signature, blockNumber, totalEarnings, proof) =>
      (match CheckSignature(v, ecrecover, recipient, signer, amount, signature)
       case Failure(e) => Failure(e)
       case Success(_) =>
         match ProveBalance(v, tx.now, blockNumber, signer, totalEarnings, proof)
         case Failure(e) => Failure(e)
         case Success(proven) => DoWithdraw(proven, recipient, signer, amount))
    case SetOperator(newOperator) =>
      if tx.sender != v.owner then Failure(OnlyOwner) else Success(v.(operator := newOperator))
    case SetAdminFee(newAdminFee) =>
      if tx.sender != v.owner then Failure(OnlyOwner)
      else if newAdminFee > ONE_ETHER then Failure(BadAdminFee)
      else Success(v.(adminFee := newAdminFee))
    case TransferTokens(to, amount) =>
      (match TokenTransfer(v.tokens, tx.sender, to, amount)
       case Failure(e) => Failure(e)
       case Success(tokens) => Success(v.(tokens := tokens)))
    case MintTokens(to, amount) => Success(v.(tokens := v.tokens[to := Get(v.tokens, to) + amount]))
  }

  /** A failing transaction changes nothing. */
  function Apply(v: Vault, ecrecover: Recover, tx: Tx): Vault {
    match Execute(v, ecrecover, tx)
    case Failure(_) => v
    case Success(next) => next
  }

  /** The vault after the first n transactions of a run. */
  function After(v: Vault, ecrecover: Recover, txs: seq<Tx>, n: nat): Vault
    requires n <= |txs|
  {
    if n == 0 then v else Apply(After(v, ecrecover, txs, n - 1), ecrecover, txs[n - 1])
  }

  // ----- what every run keeps

  /** The contract itself sends no transactions. */
  ghost predicate FromOutside(v: Vault, txs: seq<Tx>) {
    forall i :: 0 <= i < |txs| ==> txs[i].sender != v.self
  }

  function Balance(v: Vault): nat { Get(v.tokens, v.self) }

  ghost predicate Accounted(v: Vault) {
    && v.totalProven == Total(v.earnings)
    && v.totalWithdrawn == Total(v.withdrawn)
    && (forall a :: Get(v.withdrawn, a) <= Get(v.earnings, a))
    && v.totalProven - v.totalWithdrawn <= Balance(v)
    && v.totalProven < TWO_256
  }

  /** Later in a run: nothing proven or withdrawn is ever taken back. */
  ghost predicate Grown(v: Vault, w: Vault) {
    && w.self == v.self
    && (forall a :: Get(v.earnings, a) <= Get(w.earnings, a))
    && (forall a :: Get(v.withdrawn, a) <= Get(w.withdrawn, a))
  }

  lemma WithdrawnAtMostProven(v: Vault, a: Address)
    requires Accounted(v)
    ensures Get(v.earnings, a) - Get(v.withdrawn, a) <= v.totalProven - v.totalWithdrawn
    ensures Get(v.earnings, a) <= v.totalProven
  {
    GapAtMostTotalGap(v.withdrawn, v.earnings, a);
    TotalWithout(v.earnings, a);
  }

  lemma VerifyKeepsAccounts(v: Vault, now: nat, blockNumber: nat, account: Address, newEarnings: Word)
    requires Accounted(v)
    requires OnVerifySuccess(v, now, blockNumber, account, newEarnings).Success?
    ensures var w := OnVerifySuccess(v, now, blockNumber, account, newEarnings).value;
            Accounted(w) && Grown(v, w) && Get(w.earnings, account) == newEarnings
  {
    SafeAddIs(v.totalProven, newEarnings);
    TotalUpdated(v.earnings, account, newEarnings);
    WithdrawnAtMostProven(v, account);
    var w := OnVerifySuccess(v, now, blockNumber, account, newEarnings).value;
    forall a ensures Get(v.earnings, a) <= Get(w.earnings, a) && Get(w.withdrawn, a) <= Get(w.earnings, a) {
      assert Get(v.withdrawn, a) <= Get(v.earnings, a);
    }
  }

  /** A withdrawal succeeds exactly when it is not empty, is covered by proven earnings and has a recipient:
      in an accounted state the token transfer never fails. */
  lemma WithdrawSucceedsExactlyWhen(v: Vault, recipient: Address, account: Address, amount: Word)
    requires Accounted(v)
    ensures DoWithdraw(v, recipient, account, amount).Success? <==>
            0 < amount && Get(v.withdrawn, account) + amount <= Get(v.earnings, account) && recipient != ZERO_ADDRESS
    ensures DoWithdraw(v, recipient, account, amount).Success? ==>
            var w := DoWithdraw(v, recipient, account, amount).value;
            && w.totalWithdrawn == v.totalWithdrawn + amount
            && w.withdrawn == v.withdrawn[account := Get(v.withdrawn, account) + amount]
            && Balance(w) == Balance(v) - (if recipient == v.self then 0 else amount)
            && (recipient != v.self ==> Get(w.tokens, recipient) == Get(v.tokens, recipient) + amount)
  {
    WithdrawnAtMostProven(v, account);
    TotalMonotone(v.withdrawn, v.earnings);
    TotalWithout(v.withdrawn, account);
    SafeAddIs(Get(v.withdrawn, account), amount);
    SafeAddIs(v.totalWithdrawn, amount);
  }

  lemma WithdrawKeepsAccounts(v: Vault, recipient: Address, account: Address, amount: Word)
    requires Accounted(v) && DoWithdraw(v, recipient, account, amount).Success?
    ensures var w := DoWithdraw(v, recipient, account, amount).value;
            Accounted(w) && Grown(v, w) && Get(w.withdrawn, account) > Get(v.withdrawn, account)
  {
    WithdrawSucceedsExactlyWhen(v, recipient, account, amount);
    PayingKeepsCommits(v, recipient, account, amount);
    hide DoWithdraw, Accounted, Grown;
    PaidKeepsAccounts(v, DoWithdraw(v, recipient, account, amount).value, account, amount);
  }

  lemma PaidKeepsAccounts(v: Vault, w: Vault, account: Address, amount: Word)
    requires Accounted(v) && 0 < amount && Get(v.withdrawn, account) + amount <= Get(v.earnings, account)
    requires w.withdrawn == v.withdrawn[account := Get(v.withdrawn, account) + amount]
    requires w.totalWithdrawn == v.totalWithdrawn + amount && Balance(v) - amount <= Balance(w)
    requires w.self == v.self && w.earnings == v.earnings && w.totalProven == v.totalProven
    ensures Accounted(w) && Grown(v, w) && Get(w.withdrawn, account) > Get(v.withdrawn, account)
  {
    TotalUpdated(v.withdrawn, account, Get(v.withdrawn, account) + amount);
    forall a ensures Get(v.withdrawn, a) <= Get(w.withdrawn, a) <= Get(w.earnings, a) {
      assert Get(v.withdrawn, a) <= Get(v.earnings, a);
    }
  }

  /** Whom a call pays, if it is a withdrawal. */
  function RecipientOf(tx: Tx): Option<Address> {
    match tx.call
    case Withdraw(_) => Some(tx.sender)
    case WithdrawFor(recipient, _) => Some(recipient)
    case WithdrawTo(recipient, _) => Some(recipient)
    case WithdrawToSigned(recipient, _, _, _) => Some(recipient)
    case WithdrawAll(_, _, _) => Some(tx.sender)
    case WithdrawAllFor(recipient, _, _, _) => Some(recipient)
    case WithdrawAllTo(recipient, _, _, _) => Some(recipient)
    case WithdrawAllToSigned(recipient, _, _, _, _, _) => Some(recipient)
    case ProveAndWithdrawToSigned(recipient, _, _, _, _, _, _) => Some(recipient)
    case _ => None
  }

  /** Whose earnings a withdrawal is taken from. */
  function AccountOf(tx: Tx): Address {
    match tx.call
    case WithdrawFor(recipient, _) => recipient
    case WithdrawToSigned(_, signer, _, _) => signer
    case WithdrawAllFor(recipient, _, _, _) => recipient
    case WithdrawAllToSigned(_, signer, _, _, _, _) => signer
    case ProveAndWithdrawToSigned(_, signer, _, _, _, _, _) => signer
    case _ => tx.sender
  }

  /** The block, the earnings and the proof that a withdrawal starts by proving, if it does. */
  function ProofOf(call: Call): Option<(nat, Word, seq<Digest>)> {
    match call
    case WithdrawAll(blockNumber, totalEarnings, proof) => Some((blockNumber, totalEarnings, proof))
    case WithdrawAllFor(_, blockNumber, totalEarnings, proof) => Some((blockNumber, totalEarnings, proof))
    case WithdrawAllTo(_, blockNumber, totalEarnings, proof) => Some((blockNumber, totalEarnings, proof))
    case WithdrawAllToSigned(_, _, _, blockNumber, totalEarnings, proof) => Some((blockNumber, totalEarnings, proof))
    case ProveAndWithdrawToSigned(_, _, _, _, blockNumber, totalEarnings, proof) =>
      Some((blockNumber, totalEarnings, proof))
    case _ => None
  }

  /** How much a withdrawal pays: the amount it names, or all up to the earnings it proves. */
  function AmountOf(v: Vault, tx: Tx): int {
    match tx.call
    case Withdraw(amount) => amount
    case WithdrawFor(_, amount) => amount
    case WithdrawTo(_, amount) => amount
    case WithdrawToSigned(_, _, amount, _) => amount
    case ProveAndWithdrawToSigned(_, _, amount, _, _, _, _) => amount
    case call => if ProofOf(call).Some? then ProofOf(call).value.1 - Get(v.withdrawn, AccountOf(tx)) else 0
  }

  /** The message whose signature a call relies on, with its signer and the signature: it names the recipient, the
      amount or zero for all, the contract, and how much the signer has withdrawn so far. */
  function AuthorizationOf(v: Vault, call: Call): Option<(Address, Message, Signature)> {
    match call
    case WithdrawToSigned(recipient, signer, amount, signature) =>
      Some((signer, Message(recipient, amount, v.self, Get(v.withdrawn, signer)), signature))
    case WithdrawAllToSigned(recipient, signer, signature, _, _, _) =>
      Some((signer, Message(recipient, 0, v.self, Get(v.withdrawn, signer)), signature))
    case ProveAndWithdrawToSigned(recipient, signer, amount, signature, _, _, _) =>
      Some((signer, Message(recipient, amount, v.self, Get(v.withdrawn, signer)), signature))
    case _ => None
  }

  /** Earnings are as before, or one account's are what a correct proof says. */
  ghost predicate ProvenByProof(v: Vault, earnings: map<Address, nat>) {
    || earnings == v.earnings
    || exists blockNumber, account, balance: Word, proof ::
         && ProofIsCorrect(v, blockNumber, account, balance, proof) == Success(true)
         && earnings == v.earnings[account := balance]
  }

  /** Only proven earnings differ. */
  ghost predicate OnlyProves(v: Vault, w: Vault) {
    && Accounted(w) && Grown(v, w)
    && w == v.(totalProven := w.totalProven, earnings := w.earnings)
    && ProvenByProof(v, w.earnings)
  }

  lemma ProvingOnlyProves(v: Vault, now: nat, blockNumber: nat, account: Address, balance: Word, proof: seq<Digest>)
    requires Accounted(v)
    ensures ProveBalance(v, now, blockNumber, account, balance, proof).Success? ==>
              OnlyProves(v, ProveBalance(v, now, blockNumber, account, balance, proof).value)
  {
    if ProveBalance(v, now, blockNumber, account, balance, proof).Success? {
      VerifyKeepsAccounts(v, now, blockNumber, account, balance);
      assert ProofIsCorrect(v, blockNumber, account, balance, proof) == Success(true);
    }
  }

  lemma ProvingNothing(v: Vault)
    requires Accounted(v)
    ensures OnlyProves(v, v)
  {
  }

  /** Every successful withdrawal call is the proving that it asks for, if any, and then one payment of its amount
      from its account. */
  lemma WithdrawalIsProveThenPay(v: Vault, ecrecover: Recover, tx: Tx)
    returns (mid: Vault, account: Address, amount: Word)
    requires Accounted(v) && RecipientOf(tx).Some? && Execute(v, ecrecover, tx).Success?
    ensures OnlyProves(v, mid) && Execute(v, ecrecover, tx) == DoWithdraw(mid, RecipientOf(tx).value, account, amount)
    ensures account == AccountOf(tx) && amount == AmountOf(v, tx)
    ensures match ProofOf(tx.call)
            case Some((blockNumber, totalEarnings, proof)) =>
              ProveBalance(v, tx.now, blockNumber, account, totalEarnings, proof) == Success(mid)
            case None => mid == v
  {
    hide OnlyProves, Accounted, DoWithdraw, ProveBalance, ProveAndWithdrawAll, CheckSignature;
    ProvingNothing(v);
    mid, account, amount := v, tx.sender, 0;
    match tx.call {
      case Withdraw(a) => amount := a;
      case WithdrawFor(r, a) => account, amount := r, a;
      case WithdrawTo(r, a) => amount := a;
      case WithdrawToSigned(r, signer, a, s) => account, amount := signer, a;
      case WithdrawAll(b, t, p) => mid, amount := AllIsProveThenPay(v, tx.now, tx.sender, tx.sender, b, t, p);
      case WithdrawAllFor(r, b, t, p) =>
        account := r;
        mid, amount := AllIsProveThenPay(v, tx.now, r, r, b, t, p);
      case WithdrawAllTo(r, b, t, p) => mid, amount := AllIsProveThenPay(v, tx.now, r, tx.sender, b, t, p);
      case WithdrawAllToSigned(r, signer, s, b, t, p) =>
        account := signer;
        mid, amount := AllIsProveThenPay(v, tx.now, r, signer, b, t, p);
      case ProveAndWithdrawToSigned(r, signer, a, s, b, t, p) =>
        account, amount := signer, a;
        ProvingOnlyProves(v, tx.now, b, signer, t, p);
        mid := ProveBalance(v, tx.now, b, signer, t, p).value;
      case _ => assert false;
    }
  }

  lemma AllIsProveThenPay(v: Vault, now: nat, recipient: Address, account: Address, blockNumber: nat,
                          totalEarnings: Word, proof: seq<Digest>)
    returns (mid: Vault, amount: Word)
    requires Accounted(v)
    requires ProveAndWithdrawAll(v, now, recipient, account, blockNumber, totalEarnings, proof).Success?
    ensures OnlyProves(v, mid) && ProveBalance(v, now, blockNumber, account, totalEarnings, proof) == Success(mid)
    ensures amount == totalEarnings - Get(v.withdrawn, account)
    ensures ProveAndWithdrawAll(v, now, recipient, account, blockNumber, totalEarnings, proof) ==
            DoWithdraw(mid, recipient, account, amount)
  {
    hide Accounted, Grown, ProvenByProof, ProveBalance, DoWithdraw;
    ProvingOnlyProves(v, now, blockNumber, account, totalEarnings, proof);
    mid := ProveBalance(v, now, blockNumber, account, totalEarnings, proof).value;
    amount := totalEarnings - Get(mid.withdrawn, account);
  }

  lemma GrownIsTransitive(a: Vault, b: Vault, c: Vault)
    requires Grown(a, b) && Grown(b, c)
    ensures Grown(a, c)
  {
    forall x ensures Get(a.earnings, x) <= Get(c.earnings, x) && Get(a.withdrawn, x) <= Get(c.withdrawn, x) {
      assert Get(a.earnings, x) <= Get(b.earnings, x) && Get(a.withdrawn, x) <= Get(b.withdrawn, x);
    }
  }

  /** The amount of the Transfer event to the vault that a transaction emits. A withdrawal to the vault
      itself emits one too. */
  function ReceivedBy(v: Vault, ecrecover: Recover, tx: Tx): nat {
    match Execute(v, ecrecover, tx)
    case Failure(_) => 0
    case Success(w) =>
      match tx.call
      case TransferTokens(to, amount) => if to == v.self then amount else 0
      case MintTokens(to, amount) => if to == v.self then amount else 0
      case _ =>
        if RecipientOf(tx) == Some(v.self) && v.totalWithdrawn <= w.totalWithdrawn
        then w.totalWithdrawn - v.totalWithdrawn
        else 0
  }

  lemma SameAccountsMoreTokens(v: Vault, w: Vault)
    requires Accounted(v) && Balance(v) <= Balance(w) && w.self == v.self
    requires w.earnings == v.earnings && w.withdrawn == v.withdrawn
    requires w.totalProven == v.totalProven && w.totalWithdrawn == v.totalWithdrawn
    ensures Accounted(w) && Grown(v, w)
  {
  }

  /** Only the roles, the fee, the commits and the tokens differ. */
  ghost predicate SameAccounts(v: Vault, w: Vault) {
    w == v.(operator := w.operator, adminFee := w.adminFee, committedHash := w.committedHash,
            blockTimestamp := w.blockTimestamp, tokens := w.tokens)
  }

  lemma OtherCallSucceeds(v: Vault, ecrecover: Recover, tx: Tx)
    requires RecipientOf(tx).None? && !tx.call.Prove?
    ensures Execute(v, ecrecover, tx).Success? ==> SameAccounts(v, Execute(v, ecrecover, tx).value)
  {
    hide TokenTransfer, HashAt, ProveBalance, ProveAndWithdrawAll, DoWithdraw, CheckSignature;
    match tx.call
    case Commit(blockNumber, rootHash) =>
      assert Execute(v, ecrecover, tx) == CommitBlock(v, tx, blockNumber, rootHash);
    case SetOperator(_) =>
    case SetAdminFee(_) =>
    case TransferTokens(_, _) =>
    case MintTokens(_, _) =>
    case _ =>
  }

  /** A transaction that neither proves nor withdraws leaves the accounts alone. */
  lemma OtherCallsLeaveAccounts(v: Vault, ecrecover: Recover, tx: Tx)
    requires RecipientOf(tx).None? && !tx.call.Prove?
    ensures SameAccounts(v, Apply(v, ecrecover, tx))
  {
    hide Execute;
    OtherCallSucceeds(v, ecrecover, tx);
  }

  /** It can only bring tokens. */
  lemma OtherCallsBringTokens(v: Vault, ecrecover: Recover, tx: Tx)
    requires tx.sender != v.self && RecipientOf(tx).None? && !tx.call.Prove?
    ensures Get(Apply(v, ecrecover, tx).tokens, v.self) == Balance(v) + ReceivedBy(v, ecrecover, tx)
  {
    hide HashAt, ProveBalance, ProveAndWithdrawAll, DoWithdraw, CheckSignature, TokenTransfer;
    match tx.call
    case Commit(blockNumber, rootHash) =>
    case TransferTokens(to, amount) => TransferBrings(v.tokens, tx.sender, to, amount, v.self);
    case MintTokens(to, amount) =>
    case SetOperator(_) =>
    case SetAdminFee(_) =>
    case _ =>
  }

  lemma TransferBrings(tokens: map<Address, nat>, from: Address, to: Address, amount: nat, self: Address)
    requires from != self
    ensures match TokenTransfer(tokens, from, to, amount)
            case Success(moved) => Get(moved, self) == Get(tokens, self) + if to == self then amount else 0
            case Failure(_) => true
  {
  }

  /** Every transaction, whoever sends it and however it ends, keeps the books, and no tokens leave or enter
      other than by withdrawals and by transfers to the vault. */
  lemma ExecuteKeepsAccounts(v: Vault, ecrecover: Recover, tx: Tx)
    requires Accounted(v) && tx.sender != v.self
    ensures Accounted(Apply(v, ecrecover, tx)) && Grown(v, Apply(v, ecrecover, tx))
    ensures var w := Apply(v, ecrecover, tx);
            Balance(w) + w.totalWithdrawn == Balance(v) + v.totalWithdrawn + ReceivedBy(v, ecrecover, tx)
  {
    hide Accounted, Grown, CommitBlock, ProveBalance, ProveAndWithdrawAll, DoWithdraw, CheckSignature, TokenTransfer,
         ProvenByProof;
    SameAccountsMoreTokens(v, v);
    if tx.call.Prove? {
      ProvingOnlyProves(v, tx.now, tx.call.blockNumber, tx.call.account, tx.call.balance, tx.call.proof);
    } else if RecipientOf(tx).None? {
      OtherCallsLeaveAccounts(v, ecrecover, tx);
      OtherCallsBringTokens(v, ecrecover, tx);
      SameAccountsMoreTokens(v, Apply(v, ecrecover, tx));
    } else if Execute(v, ecrecover, tx).Success? {
      var mid, account, amount := WithdrawalIsProveThenPay(v, ecrecover, tx);
      WithdrawSucceedsExactlyWhen(mid, RecipientOf(tx).value, account, amount);
      WithdrawKeepsAccounts(mid, RecipientOf(tx).value, account, amount);
      GrownIsTransitive(v, mid, Apply(v, ecrecover, tx));
    }
  }

  /** In every run: the totals are the sums, nobody has withdrawn more than proven, and what has been proven
      but not withdrawn is covered by the contract's tokens. */
  lemma {:induction false} RunKeepsAccounts(v: Vault, ecrecover: Recover, txs: seq<Tx>, i: nat, n: nat)
    requires Accounted(v) && FromOutside(v, txs) && i <= n <= |txs|
    ensures Accounted(After(v, ecrecover, txs, n)) && After(v, ecrecover, txs, n).self == v.self
    ensures Grown(After(v, ecrecover, txs, i), After(v, ecrecover, txs, n))
    decreases n
  {
    hide Accounted, Apply;
    if n > 0 {
      var before := After(v, ecrecover, txs, n - 1);
      RunKeepsAccounts(v, ecrecover, txs, if i < n then i else n - 1, n - 1);
      ExecuteKeepsAccounts(before, ecrecover, txs[n - 1]);
      if i < n {
        GrownIsTransitive(After(v, ecrecover, txs, i), before, After(v, ecrecover, txs, n));
      }
    }
  }

  /** Unless the operator commits or the owner appoints another operator, a transaction leaves the commits alone,
      and earnings only change by correct proofs. */
  lemma CommitsStay(v: Vault, ecrecover: Recover, tx: Tx)
    requires Accounted(v) && tx.sender != v.self
    requires tx.call.Commit? ==> tx.sender != v.operator
    requires tx.call.SetOperator? ==> tx.sender != v.owner
    ensures var w := Apply(v, ecrecover, tx);
            && w.committedHash == v.committedHash && w.blockTimestamp == v.blockTimestamp
            && w.operator == v.operator && w.owner == v.owner && w.blockFreezeSeconds == v.blockFreezeSeconds
            && ProvenByProof(v, w.earnings)
  {
    if tx.call.Prove? {
      ProvingOnlyProves(v, tx.now, tx.call.blockNumber, tx.call.account, tx.call.balance, tx.call.proof);
    } else if RecipientOf(tx).None? {
      OtherCallsLeaveAccounts(v, ecrecover, tx);
      OtherCallsKeepCommits(v, ecrecover, tx);
    } else if Execute(v, ecrecover, tx).Success? {
      var mid, account, amount := WithdrawalIsProveThenPay(v, ecrecover, tx);
      PayingKeepsCommits(mid, RecipientOf(tx).value, account, amount);
    }
  }

  lemma PayingKeepsCommits(v: Vault, recipient: Address, account: Address, amount: Word)
    requires DoWithdraw(v, recipient, account, amount).Success?
    ensures var w := DoWithdraw(v, recipient, account, amount).value;
            w == v.(withdrawn := w.withdrawn, totalWithdrawn := w.totalWithdrawn, tokens := w.tokens)
  {
  }

  lemma OtherCallsKeepCommits(v: Vault, ecrecover: Recover, tx: Tx)
    requires RecipientOf(tx).None? && !tx.call.Prove?
    requires tx.call.Commit? ==> tx.sender != v.operator
    requires tx.call.SetOperator? ==> tx.sender != v.owner
    ensures var w := Apply(v, ecrecover, tx);
            w.committedHash == v.committedHash && w.blockTimestamp == v.blockTimestamp && w.operator == v.operator
                && w.owner == v.owner
  {
    hide TokenTransfer, HashAt, ProveBalance, ProveAndWithdrawAll, DoWithdraw, CheckSignature;
  }

  /** A transaction changes a committed root or its time only if the operator commits to a block without a root,
      whoever the operator is by then. */
  lemma RootsAreFinal(v: Vault, ecrecover: Recover, tx: Tx, blockNumber: nat)
    requires Accounted(v) && tx.sender != v.self
    ensures var w := Apply(v, ecrecover, tx);
            (|| HashAt(w, blockNumber) != HashAt(v, blockNumber)
             || TimestampAt(w, blockNumber) != TimestampAt(v, blockNumber)) ==>
              && HashAt(v, blockNumber) == Zero && tx.sender == v.operator
              && tx.call == Commit(blockNumber, HashAt(w, blockNumber)) && TimestampAt(w, blockNumber) == tx.now
  {
    if !tx.call.Commit? && !tx.call.SetOperator? {
      CommitsStay(v, ecrecover, tx);
    }
  }

  /** Once committed, the root of a block and its time never change, in any run. */
  lemma {:induction false} RootsAreFinalInRuns(v: Vault, ecrecover: Recover, txs: seq<Tx>, i: nat, n: nat,
                                               blockNumber: nat)
    requires Accounted(v) && FromOutside(v, txs) && i <= n <= |txs|
    requires HashAt(After(v, ecrecover, txs, i), blockNumber) != Zero
    ensures HashAt(After(v, ecrecover, txs, n), blockNumber) == HashAt(After(v, ecrecover, txs, i), blockNumber)
    ensures TimestampAt(After(v, ecrecover, txs, n), blockNumber) ==
            TimestampAt(After(v, ecrecover, txs, i), blockNumber)
    decreases n
  {
    hide HashAt, TimestampAt, After, Accounted, FromOutside;
    if i < n {
      RootsAreFinalInRuns(v, ecrecover, txs, i, n - 1, blockNumber);
      RootIsFinalInNext(v, ecrecover, txs, n - 1, blockNumber);
    }
  }

  lemma RootIsFinalInNext(v: Vault, ecrecover: Recover, txs: seq<Tx>, n: nat, blockNumber: nat)
    requires Accounted(v) && FromOutside(v, txs) && n < |txs|
    requires HashAt(After(v, ecrecover, txs, n), blockNumber) != Zero
    ensures HashAt(After(v, ecrecover, txs, n + 1), blockNumber) == HashAt(After(v, ecrecover, txs, n), blockNumber)
    ensures TimestampAt(After(v, ecrecover, txs, n + 1), blockNumber) ==
            TimestampAt(After(v, ecrecover, txs, n), blockNumber)
  {
    hide HashAt, TimestampAt, Apply, Accounted, Grown;
    RunKeepsAccounts(v, ecrecover, txs, n, n);
    RootsAreFinal(After(v, ecrecover, txs, n), ecrecover, txs[n], blockNumber);
  }

  // ----- signatures

  /** The transaction succeeds, and relies on this signature of this message by the signer. */
  ghost predicate Accepted(v: Vault, ecrecover: Recover, tx: Tx, signer: Address, message: Message,
                           signature: Signature) {
    Execute(v, ecrecover, tx).Success? && AuthorizationOf(v, tx.call) == Some((signer, message, signature))
  }

  /** A signed withdrawal succeeds only on a message that its signature recovers to the signer,
      and moves the signer's withdrawn amount past the one named in the message. */
  lemma SignedWithdrawalMovesOn(v: Vault, ecrecover: Recover, tx: Tx, signer: Address, message: Message,
                                signature: Signature)
    requires Accounted(v) && Accepted(v, ecrecover, tx, signer, message, signature)
    ensures ecrecover(message, signature) == signer == AccountOf(tx)
    ensures RecipientOf(tx) == Some(message.recipient) && message.contract == v.self
    ensures message.amount > 0 ==> AmountOf(v, tx) == message.amount
    ensures message.withdrawn == Get(v.withdrawn, signer) < Get(Apply(v, ecrecover, tx).withdrawn, signer)
  {
    hide Accounted, Grown, ProvenByProof, DoWithdraw, ProveBalance, ProveAndWithdrawAll;
    SignatureRecovers(v, ecrecover, tx, signer, message, signature);
    hide Execute, Accepted, AuthorizationOf, CheckSignature;
    var mid, account, amount := WithdrawalIsProveThenPay(v, ecrecover, tx);
    WithdrawKeepsAccounts(mid, RecipientOf(tx).value, account, amount);
  }

  lemma SignatureRecovers(v: Vault, ecrecover: Recover, tx: Tx, signer: Address, message: Message,
                          signature: Signature)
    requires Accepted(v, ecrecover, tx, signer, message, signature)
    ensures Execute(v, ecrecover, tx).Success? && ecrecover(message, signature) == signer == AccountOf(tx)
    ensures RecipientOf(tx) == Some(message.recipient) && message.contract == v.self
    ensures message.amount > 0 ==> AmountOf(v, tx) == message.amount
    ensures message.withdrawn == Get(v.withdrawn, signer)
  {
    hide DoWithdraw, ProveBalance, ProveAndWithdrawAll;
    match tx.call
    case WithdrawToSigned(_, _, _, _) =>
    case WithdrawAllToSigned(_, _, _, _, _, _) =>
    case ProveAndWithdrawToSigned(_, _, _, _, _, _, _) =>
    case _ =>
  }

  /** The signature recovers to the signer for one message at most. */
  ghost predicate SignsOneMessage(ecrecover: Recover, signer: Address, signature: Signature) {
    forall m, n :: ecrecover(m, signature) == signer && ecrecover(n, signature) == signer ==> m == n
  }

  /** In no run does a signature that is good for one message only authorize two withdrawals. */
  lemma SignedWithdrawalsAreSingleUse(v: Vault, ecrecover: Recover, txs: seq<Tx>, i: nat, j: nat, signer: Address,
                                      first: Message, firstSignature: Signature, second: Message,
                                      secondSignature: Signature)
    requires Accounted(v) && FromOutside(v, txs) && i < j < |txs|
    requires Accepted(After(v, ecrecover, txs, i), ecrecover, txs[i], signer, first, firstSignature)
    requires Accepted(After(v, ecrecover, txs, j), ecrecover, txs[j], signer, second, secondSignature)
    requires SignsOneMessage(ecrecover, signer, firstSignature)
    ensures firstSignature != secondSignature
  {
    hide Accepted, Apply, Accounted, Grown, FromOutside, SignsOneMessage, After;
    RunKeepsAccounts(v, ecrecover, txs, i, i);
    RunKeepsAccounts(v, ecrecover, txs, i + 1, j);
    WithdrawnGrows(After(v, ecrecover, txs, i + 1), After(v, ecrecover, txs, j), signer);
    AfterOneMore(v, ecrecover, txs, i);
    SignedWithdrawalMovesOn(After(v, ecrecover, txs, i), ecrecover, txs[i], signer, first, firstSignature);
    SignedWithdrawalMovesOn(After(v, ecrecover, txs, j), ecrecover, txs[j], signer, second, secondSignature);
    OtherMessageOtherSignature(ecrecover, signer, first, firstSignature, second, secondSignature);
  }

  lemma AfterOneMore(v: Vault, ecrecover: Recover, txs: seq<Tx>, n: nat)
    requires n < |txs|
    ensures After(v, ecrecover, txs, n + 1) == Apply(After(v, ecrecover, txs, n), ecrecover, txs[n])
  {
    hide Apply;
  }

  lemma OtherMessageOtherSignature(ecrecover: Recover, signer: Address, first: Message, firstSignature: Signature,
                                   second: Message, secondSignature: Signature)
    requires SignsOneMessage(ecrecover, signer, firstSignature) && first != second
    requires ecrecover(first, firstSignature) == signer && ecrecover(second, secondSignature) == signer
    ensures firstSignature != secondSignature
  {
  }

  lemma WithdrawnGrows(v: Vault, w: Vault, account: Address)
    requires Grown(v, w)
    ensures Get(v.withdrawn, account) <= Get(w.withdrawn, account)
  {
  }
}
