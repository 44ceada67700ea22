/**
 The deliberation credit ledger (src/ee/deliberation-cloud/llm-credit-ledger.ts): an account per workspace with
 a balance that follows the tier's monthly allowance, and debits that fail closed.
 */
module CreditLedger {
  import opened Wrappers

  datatype SaasTier = Basic | Premium | Enterprise | Master

  datatype ModelTier = Fast | Reasoning | Local

  datatype CreditAccount = CreditAccount(workspaceId: string, tier: SaasTier, balanceCredits: int, consumedCredits: int)

  datatype DebitRequest =
    DebitRequest(workspaceId: string, modelTier: ModelTier, promptTokens: int, completionTokens: int)

  datatype Debited = Debited(updated: CreditAccount, debited: int)

  datatype LedgerError =
    | LedgerMismatch
    | InsufficientCredits(required: int, available: int)

  type Accounts = map<string, CreditAccount>

  function MonthlyCredits(tier: SaasTier): int {
    match tier
    case Basic => 1000
    case Premium => 10000
    case Enterprise => 50000
    case Master => 250000
  }

  function Multiplier(tier: ModelTier): int {
    match tier
    case Local => 0
    case Fast => 1
    case Reasoning => 4
  }

  function MaxInt(x: int, y: int): int {
    if x < y then y else x
  }

  function CreateCreditAccount(workspaceId: string, tier: SaasTier): CreditAccount {
    CreditAccount(workspaceId, tier, MonthlyCredits(tier), 0)
  }

  // Math.ceil(tokens / 1000) thousands, a started thousand counting whole.
  function StartedThousands(tokens: int): int {
    (tokens + 999) / 1000
  }

  function ComputeDebateCreditCost(req: DebitRequest): int {
    StartedThousands(MaxInt(0, req.promptTokens) + MaxInt(0, req.completionTokens)) * Multiplier(req.modelTier)
  }

  function DebitDeliberationCredits(account: CreditAccount, req: DebitRequest): Result<Debited, LedgerError> {
    var cost := ComputeDebateCreditCost(req);
    if account.workspaceId != req.workspaceId then Err(LedgerMismatch)
    else if account.balanceCredits < cost then Err(InsufficientCredits(cost, account.balanceCredits))
    else Ok(Debited(account.(balanceCredits := account.balanceCredits - cost,
                             consumedCredits := account.consumedCredits + cost), cost))
  }

  // The account of a workspace under a tier: a new one, the one there is, or it moved to the tier.
  function AccountFor(accounts: Accounts, workspaceId: string, tier: SaasTier): CreditAccount {
    if workspaceId !in accounts then CreateCreditAccount(workspaceId, tier)
    else
      var existing := accounts[workspaceId];
      if existing.tier != tier then
        CreditAccount(workspaceId, tier, MaxInt(0, MonthlyCredits(tier) - existing.consumedCredits),
                      existing.consumedCredits)
      else existing
  }

  function Debit(accounts: Accounts, req: DebitRequest, tier: SaasTier): (Accounts, Result<Debited, LedgerError>) {
    var account := AccountFor(accounts, req.workspaceId, tier);
    var seen := accounts[req.workspaceId := account];
    var result := DebitDeliberationCredits(account, req);
    (if result.Ok? then seen[req.workspaceId := result.data.updated] else seen, result)
  }

  class CreditLedgerStore {
    var accounts: Accounts

    constructor ()
      ensures accounts == map[]
    {
      accounts := map[];
    }

    method GetOrCreateAccount(workspaceId: string, tier: SaasTier) returns (account: CreditAccount)
      modifies this
      ensures account == AccountFor(old(accounts), workspaceId, tier)
      ensures accounts == old(accounts)[workspaceId := account]
    {
      if workspaceId !in accounts {
        account := CreateCreditAccount(workspaceId, tier);
        accounts := accounts[workspaceId := account];
        return;
      }
      var existing := accounts[workspaceId];
      if existing.tier != tier {
        account := CreditAccount(workspaceId, tier, MaxInt(0, MonthlyCredits(tier) - existing.consumedCredits),
                                 existing.consumedCredits);
        accounts := accounts[workspaceId := account];
        return;
      }
      account := existing;
      assert accounts == accounts[workspaceId := account];
    }

    // A refused debit still opens the account or moves it to the tier.
    method DebitCredits(req: DebitRequest, tier: SaasTier) returns (result: Result<Debited, LedgerError>)
      modifies this
      ensures (accounts, result) == Debit(old(accounts), req, tier)
    {
      var account := GetOrCreateAccount(req.workspaceId, tier);
      result := DebitDeliberationCredits(account, req);
      if result.Ok? {
        accounts := accounts[req.workspaceId := result.data.updated];
      }
    }
  }

  // What a new account of each tier holds.
  lemma Allowances(w: string)
    ensures CreateCreditAccount(w, Basic) == CreditAccount(w, Basic, 1000, 0)
    ensures CreateCreditAccount(w, Premium) == CreditAccount(w, Premium, 10000, 0)
    ensures CreateCreditAccount(w, Enterprise) == CreditAccount(w, Enterprise, 50000, 0)
    ensures CreateCreditAccount(w, Master) == CreditAccount(w, Master, 250000, 0)
  {
  }

  // A debit on the account of another workspace is refused whatever it costs.
  lemma MismatchIsRefused(account: CreditAccount, req: DebitRequest)
    ensures DebitDeliberationCredits(account, req) == Err(LedgerMismatch) <==> account.workspaceId != req.workspaceId
  {
  }

  // ----- the cost

  /** The cost is the least number of whole thousands that covers the tokens, times the multiplier of the model;
      negative token counts are ignored, and a local model is free. */
  lemma CostCoversTokens(req: DebitRequest)
    ensures var tokens := MaxInt(0, req.promptTokens) + MaxInt(0, req.completionTokens);
      var cost := ComputeDebateCreditCost(req);
      && cost >= 0
      && (req.modelTier == Fast ==> 1000 * (cost - 1) < tokens <= 1000 * cost)
      && (req.modelTier == Reasoning ==> cost % 4 == 0 && 250 * (cost - 4) < tokens <= 250 * cost)
      && (req.modelTier == Local ==> cost == 0)
  {
  }

  // ----- runs

  datatype Call =
    | Open(workspaceId: string, tier: SaasTier)
    | DebitCall(req: DebitRequest, tier: SaasTier)

  function WorkspaceOf(c: Call): string {
    if c.Open? then c.workspaceId else c.req.workspaceId
  }

  function Serve(accounts: Accounts, c: Call): Accounts {
    match c
    case Open(w, tier) => accounts[w := AccountFor(accounts, w, tier)]
    case DebitCall(req, tier) => Debit(accounts, req, tier).0
  }

  ghost function Run(calls: seq<Call>): Accounts {
    if calls == [] then map[] else Serve(Run(calls[..|calls| - 1]), calls[|calls| - 1])
  }

  // The credits of the successful debits of a workspace.
  ghost function Spent(calls: seq<Call>, w: string): int {
    if calls == [] then 0
    else
      var front, c := calls[..|calls| - 1], calls[|calls| - 1];
      var result := if c.DebitCall? then Debit(Run(front), c.req, c.tier).1 else Err(LedgerMismatch);
      Spent(front, w) + if WorkspaceOf(c) == w && result.Ok? then result.data.debited else 0
  }

  // The largest allowance of any tier a workspace was seen under.
  ghost function LargestAllowance(calls: seq<Call>, w: string): int {
    if calls == [] then 0
    else
      var front, c := calls[..|calls| - 1], calls[|calls| - 1];
      if WorkspaceOf(c) == w then MaxInt(LargestAllowance(front, w), MonthlyCredits(c.tier))
      else LargestAllowance(front, w)
  }

  // An account is filed under its workspace, and its balance is what the allowance of its tier
  // leaves after consumption, never below zero.
  ghost predicate Sound(account: CreditAccount, w: string) {
    && account.workspaceId == w
    && account.consumedCredits >= 0
    && account.balanceCredits == MaxInt(0, MonthlyCredits(account.tier) - account.consumedCredits)
  }

  lemma DebitKeepsSound(account: CreditAccount, w: string, req: DebitRequest)
    requires Sound(account, w) && req.workspaceId == w
    ensures var r := DebitDeliberationCredits(account, req);
      && (r.Ok? ==>
            && Sound(r.data.updated, w) && r.data.updated.tier == account.tier
            && r.data.debited == ComputeDebateCreditCost(req) >= 0
            && r.data.updated.consumedCredits == account.consumedCredits + r.data.debited
            && (r.data.debited > 0 ==> r.data.updated.consumedCredits <= MonthlyCredits(account.tier)))
      && (r.Err? ==> r.error == InsufficientCredits(ComputeDebateCreditCost(req), account.balanceCredits))
  {
    CostCoversTokens(req);
  }

  // The tier a workspace was last seen under.
  ghost function LastTier(calls: seq<Call>, w: string): Option<SaasTier> {
    if calls == [] then None
    else if WorkspaceOf(calls[|calls| - 1]) == w then Some(calls[|calls| - 1].tier)
    else LastTier(calls[..|calls| - 1], w)
  }

  /** After any sequence of openings, tier changes and debits: every account is sound and of the tier last asked for,
      its consumption is the sum of its successful debits, and that never exceeds the largest allowance the workspace
      was seen under. */
  lemma {:induction false} LedgerInvariant(calls: seq<Call>, w: string)
    ensures 0 <= Spent(calls, w) <= LargestAllowance(calls, w)
    ensures w in Run(calls) ==> Sound(Run(calls)[w], w) && Run(calls)[w].consumedCredits == Spent(calls, w)
    ensures w in Run(calls) ==> Some(Run(calls)[w].tier) == LastTier(calls, w)
    ensures w !in Run(calls) ==> Spent(calls, w) == 0 && LastTier(calls, w) == None
  {
    if calls != [] {
      var front, c := calls[..|calls| - 1], calls[|calls| - 1];
      LedgerInvariant(front, w);
      if WorkspaceOf(c) == w {
        var account := AccountFor(Run(front), w, c.tier);
        assert Sound(account, w) && account.tier == c.tier;
        if c.DebitCall? {
          DebitKeepsSound(account, w, c.req);
        }
      }
    }
  }

  ghost function Moved(accounts: Accounts, w: string, detour: seq<SaasTier>): Accounts {
    if detour == [] then accounts
    else
      var before := Moved(accounts, w, detour[..|detour| - 1]);
      Serve(before, Open(w, detour[|detour| - 1]))
  }

  lemma {:induction false} DetourKeepsConsumption(accounts: Accounts, w: string, detour: seq<SaasTier>)
    requires w in accounts && Sound(accounts[w], w)
    ensures var m := Moved(accounts, w, detour);
      w in m && Sound(m[w], w) && m[w].consumedCredits == accounts[w].consumedCredits
  {
    if detour != [] {
      DetourKeepsConsumption(accounts, w, detour[..|detour| - 1]);
    }
  }

  /** Moving a workspace to another tier and back restores its account exactly; so does any detour over tiers that ends
      where it began. */
  lemma {:induction false} TierDetourRestores(accounts: Accounts, w: string, detour: seq<SaasTier>)
    requires w in accounts && Sound(accounts[w], w)
    ensures AccountFor(Moved(accounts, w, detour), w, accounts[w].tier) == accounts[w]
  {
    DetourKeepsConsumption(accounts, w, detour);
  }

  // A call about one workspace leaves every other account alone.
  lemma WorkspacesAreIndependent(accounts: Accounts, c: Call, w: string)
    requires WorkspaceOf(c) != w
    ensures w in Serve(accounts, c) <==> w in accounts
    ensures w in accounts ==> Serve(accounts, c)[w] == accounts[w]
  {
  }

  /** In a reachable store a debit fails exactly when its cost exceeds what the tier's allowance leaves, and the
      mismatch error never occurs. */
  lemma DebitSucceedsExactlyWithinAllowance(calls: seq<Call>, req: DebitRequest, tier: SaasTier)
    ensures var left := MaxInt(0, MonthlyCredits(tier) - Spent(calls, req.workspaceId));
      var cost := ComputeDebateCreditCost(req);
      var result := Debit(Run(calls), req, tier).1;
      && (result.Ok? <==> cost <= left)
      && (result.Err? ==> result.error == InsufficientCredits(cost, left))
  {
    LedgerInvariant(calls, req.workspaceId);
    var account := AccountFor(Run(calls), req.workspaceId, tier);
    assert Sound(account, req.workspaceId) && account.tier == tier;
    DebitKeepsSound(account, req.workspaceId, req);
  }

  /** A refused debit changes the store exactly when it opens the account or moves it to another tier, which is then all
      it does. */
  lemma RefusedDebitStores(accounts: Accounts, req: DebitRequest, tier: SaasTier)
    requires Debit(accounts, req, tier).1.Err?
    ensures var w, after := req.workspaceId, Debit(accounts, req, tier).0;
      && (after == accounts <==> w in accounts && accounts[w].tier == tier)
      && after == Serve(accounts, Open(w, tier))
  {
    if req.workspaceId in accounts && accounts[req.workspaceId].tier == tier {
      assert accounts[req.workspaceId := accounts[req.workspaceId]] == accounts;
    }
  }

  // For instance a debit beyond the basic allowance, in an empty store, is refused and leaves an account.
  lemma RefusedDebitOpensAccount(w: string)
    ensures var req := DebitRequest(w, Reasoning, 251000, 0);
      var (after, result) := Debit(map[], req, Basic);
      && result == Err(InsufficientCredits(1004, 1000))
      && after == map[w := CreditAccount(w, Basic, 1000, 0)]
  {
    assert StartedThousands(251000) == 251;
  }
}
