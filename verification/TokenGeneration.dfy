/** Making a token for each provider, and pairing the tokens with the providers. */
module TokenGeneration {
  import opened Options
  import opened TokenGroups

  datatype Key = Key(modulus: int, exponent: int)

  datatype Token = Token(token: string, signature: string)

  datatype Error = NoKey | NoToken | Unserializable

  /** The raw token info: consumer, service and end of validity. */
  datatype Info = Info(c: string, s: string, e: int)

  const SIZE_LIMIT := 244

  // ----- serializing

  /** A text is read and written again, else an object is written, and for neither there is nothing. The mapper may
      throw, which ends the call. */
  function ToPrettyJson<T>(text: Option<string>, obj: Option<T>, rewrite: string -> Option<string>,
                           write: T -> Option<string>): (r: Result<Option<string>, Error>)
    ensures r == Success(None) <==> text.None? && obj.None?
  {
    if text.Some? then Written(rewrite(text.value))
    else if obj.Some? then Written(write(obj.value))
    else Success(None)
  }

  function Written(json: Option<string>): Result<Option<string>, Error> {
    if json.Some? then Success(json) else Failure(Unserializable)
  }

  // ----- what happens for one provider

  /** The environment of a request: the keys of the systems, the token info and the mapper, and what encrypting and
      signing with a key give at each index, which may be nothing. */
  datatype Environment = Environment(
    keyOf: ArrowheadSystem -> Option<Key>, infoAt: nat -> Info, write: Info -> Option<string>,
    rewrite: string -> Option<string>, sealAt: nat -> (Key, string) -> Option<Token>)

  function JsonAt(env: Environment, i: nat): Result<Option<string>, Error> {
    ToPrettyJson(None, Some(env.infoAt(i)), env.rewrite, env.write)
  }

  /** What a provider comes to: an exception that ends the call, no place in the list, no token, or a token. */
  datatype Slot = Thrown | Skipped | Empty | Made(token: Token)

  function SlotOf(key: Option<Key>, json: Result<Option<string>, Error>, seal: (Key, string) -> Option<Token>): Slot {
    if key.None? then Empty
    else if json.Failure? then Thrown
    else if json.value.None? then Skipped
    else if |json.value.value| > SIZE_LIMIT then Empty
    else
      var token := seal(key.value, json.value.value);
      if token.None? then Empty else Made(token.value)
  }

  function SlotAt(env: Environment, providers: seq<ArrowheadSystem>, i: nat): Slot
    requires i < |providers|
  {
    SlotOf(env.keyOf(providers[i]), JsonAt(env, i), env.sealAt(i))
  }

  function TokenOf(s: Slot): Option<Token> { if s.Made? then Some(s.token) else None }

  function Slots(env: Environment, providers: seq<ArrowheadSystem>): (r: seq<Slot>)
    ensures |r| == |providers| && forall i :: 0 <= i < |r| ==> r[i] == SlotAt(env, providers, i)
  {
    seq(|providers|, i requires 0 <= i < |providers| => SlotAt(env, providers, i))
  }

  /** The list of tokens: skipped providers have no place in it. */
  function Tokens(slots: seq<Slot>): seq<Option<Token>> {
    if slots == [] then []
    else
      var before, slot := Tokens(slots[..|slots| - 1]), slots[|slots| - 1];
      if slot.Skipped? then before else before + [TokenOf(slot)]
  }

  predicate AnyKey(env: Environment, providers: seq<ArrowheadSystem>) {
    exists i :: 0 <= i < |providers| && env.keyOf(providers[i]).Some?
  }

  predicate AnyToken(tokens: seq<Option<Token>>) { exists i :: 0 <= i < |tokens| && tokens[i].Some? }

  // ----- the service

  method GetProviderPublicKeys(env: Environment, providers: seq<ArrowheadSystem>)
      returns (r: Result<seq<Option<Key>>, Error>)
    ensures r.Success? <==> AnyKey(env, providers)
    ensures r.Failure? ==> r.error == NoKey
    ensures r.Success? ==> |r.value| == |providers|
                           && forall i :: 0 <= i < |providers| ==> r.value[i] == env.keyOf(providers[i])
  {
    var keys := [];
    for i := 0 to |providers|
      invariant |keys| == i && forall j :: 0 <= j < i ==> keys[j] == env.keyOf(providers[j])
    {
      keys := keys + [env.keyOf(providers[i])];
    }
    var nonNullKeyExists := false;
    for i := 0 to |keys|
      invariant nonNullKeyExists <==> exists j :: 0 <= j < i && keys[j].Some?
    {
      if keys[i].Some? {
        nonNullKeyExists := true;
        break;
      }
    }
    if !nonNullKeyExists {
      return Failure(NoKey);
    }
    r := Success(keys);
  }

  /** The tokens in the order of the providers. Fails, in this order, if there is no key, if the mapper throws for a
      provider with a key, or if there is no token. */
  method GenerateTokens(env: Environment, providers: seq<ArrowheadSystem>) returns (r: Result<seq<Option<Token>>, Error>)
    ensures r == if !AnyKey(env, providers) then Failure(NoKey)
                 else if Thrown in Slots(env, providers) then Failure(Unserializable)
                 else if !AnyToken(Tokens(Slots(env, providers))) then Failure(NoToken)
                 else Success(Tokens(Slots(env, providers)))
  {
    hide JsonAt;
    var keys := GetProviderPublicKeys(env, providers);
    if keys.Failure? {
      return Failure(keys.error);
    }
    ghost var slots := Slots(env, providers);
    var tokens: seq<Option<Token>> := [];
    for i := 0 to |keys.value|
      invariant tokens == Tokens(slots[..i]) && Thrown !in slots[..i]
    {
      assert slots[..i + 1][..i] == slots[..i] && slots[..i + 1] == slots[..i] + [slots[i]];
      var key := keys.value[i];
      if key.None? {
        tokens := tokens + [None];
        continue;
      }
      var json := JsonAt(env, i);
      if json.Failure? {
        assert slots[i] == Thrown;
        JsonErrors(env, i);
        return Failure(json.error);
      }
      if json.value.None? {
        continue;
      }
      if |json.value.value| > SIZE_LIMIT {
        tokens := tokens + [None];
        continue;
      }
      tokens := tokens + [env.sealAt(i)(key.value, json.value.value)];
    }
    assert slots[..|slots|] == slots;
    var nonNullTokenExists := false;
    for i := 0 to |tokens|
      invariant nonNullTokenExists <==> exists j :: 0 <= j < i && tokens[j].Some?
    {
      if tokens[i].Some? {
        nonNullTokenExists := true;
        break;
      }
    }
    if !nonNullTokenExists {
      return Failure(NoToken);
    }
    r := Success(tokens);
  }

  lemma JsonErrors(env: Environment, i: nat)
    ensures JsonAt(env, i).Failure? ==> JsonAt(env, i).error == Unserializable
  {
  }

  // ----- alignment

  /** A list has one place for each slot, in order, exactly when none is skipped. */
  lemma {:induction false} AlignedIffNoneSkipped(slots: seq<Slot>)
    ensures |Tokens(slots)| <= |slots|
    ensures |Tokens(slots)| == |slots| <==> Skipped !in slots
    ensures Skipped !in slots ==> forall i :: 0 <= i < |slots| ==> Tokens(slots)[i] == TokenOf(slots[i])
  {
    if slots != [] {
      var n := |slots| - 1;
      AlignedIffNoneSkipped(slots[..n]);
      assert slots == slots[..n] + [slots[n]];
    }
  }

  /** No provider is skipped, since serializing gives nothing only for nothing, and there is always a token info. */
  lemma NeverSkipped(env: Environment, providers: seq<ArrowheadSystem>)
    ensures Skipped !in Slots(env, providers)
    ensures |Tokens(Slots(env, providers))| == |providers|
  {
    forall i | 0 <= i < |providers|
      ensures !SlotAt(env, providers, i).Skipped?
    {
      assert JsonAt(env, i) != Success(None);
    }
    AlignedIffNoneSkipped(Slots(env, providers));
  }

  /** A provider and a token that was made for it: with its key, from the token info, within the size limit. */
  predicate MadeFor(env: Environment, providers: seq<ArrowheadSystem>, i: nat, p: (ArrowheadSystem, Token))
    requires i < |providers|
  {
    && providers[i] == p.0
    && var key, json := env.keyOf(p.0), env.write(env.infoAt(i));
       key.Some? && json.Some? && |json.value| <= 244 && env.sealAt(i)(key.value, json.value) == Some(p.1)
  }

  /** The providers and tokens at the places of the list that hold a token. */
  function Pairs(providers: seq<ArrowheadSystem>, tokens: seq<Option<Token>>): seq<(ArrowheadSystem, Token)>
    requires |tokens| <= |providers|
  {
    if tokens == [] then []
    else
      var n := |tokens| - 1;
      Pairs(providers, tokens[..n]) + if tokens[n].Some? then [(providers[n], tokens[n].value)] else []
  }

  lemma {:induction false} PairsHold(providers: seq<ArrowheadSystem>, tokens: seq<Option<Token>>, p: (ArrowheadSystem, Token))
    requires |tokens| <= |providers|
    ensures p in Pairs(providers, tokens) <==>
            exists i :: 0 <= i < |tokens| && tokens[i] == Some(p.1) && providers[i] == p.0
  {
    if tokens != [] {
      var n := |tokens| - 1;
      PairsHold(providers, tokens[..n], p);
      assert forall i :: 0 <= i < n ==> tokens[..n][i] == tokens[i];
    }
  }

  lemma SlotMade(env: Environment, providers: seq<ArrowheadSystem>, i: nat, p: (ArrowheadSystem, Token))
    requires i < |providers| && providers[i] == p.0
    ensures SlotAt(env, providers, i) == Made(p.1) <==> MadeFor(env, providers, i, p)
  {
  }

  /** The pairs are exactly the providers that a token was made for, each with its token. */
  lemma PairedWithOwnKey(env: Environment, providers: seq<ArrowheadSystem>, p: (ArrowheadSystem, Token))
    ensures |Tokens(Slots(env, providers))| == |providers|
    ensures p in Pairs(providers, Tokens(Slots(env, providers))) <==>
            exists i :: 0 <= i < |providers| && MadeFor(env, providers, i, p)
  {
    hide SlotAt, MadeFor;
    NeverSkipped(env, providers);
    var slots := Slots(env, providers);
    AlignedIffNoneSkipped(slots);
    var tokens := Tokens(slots);
    PairsHold(providers, tokens, p);
    forall i | 0 <= i < |providers| && providers[i] == p.0
      ensures MadeFor(env, providers, i, p) <==> tokens[i] == Some(p.1)
    {
      assert tokens[i] == TokenOf(slots[i]);
      SlotMade(env, providers, i, p);
    }
    if i :| 0 <= i < |providers| && MadeFor(env, providers, i, p) {
      MadeForItself(env, providers, i, p);
      assert tokens[i] == Some(p.1);
    }
    if i :| 0 <= i < |tokens| && tokens[i] == Some(p.1) && providers[i] == p.0 {
      assert MadeFor(env, providers, i, p);
    }
  }

  lemma MadeForItself(env: Environment, providers: seq<ArrowheadSystem>, i: nat, p: (ArrowheadSystem, Token))
    requires i < |providers| && MadeFor(env, providers, i, p)
    ensures providers[i] == p.0
  {
  }

  /** The list has one pair for each place for which a token was made, in the order of the providers. */
  ghost predicate Listed(env: Environment, providers: seq<ArrowheadSystem>, list: seq<(ArrowheadSystem, Token)>, at: seq<nat>) {
    && |list| == |at|
    && (forall i, j :: 0 <= i < j < |at| ==> at[i] < at[j])
    && (forall k :: 0 <= k < |at| ==> at[k] < |providers| && MadeFor(env, providers, at[k], list[k]))
    && (forall i, p :: 0 <= i < |providers| && MadeFor(env, providers, i, p) ==> i in at)
  }

  /** The list has the tokens at the places `at`, in order, and these are all that hold one. */
  ghost predicate Placed(providers: seq<ArrowheadSystem>, tokens: seq<Option<Token>>,
                         list: seq<(ArrowheadSystem, Token)>, at: seq<nat>)
    requires |tokens| <= |providers|
  {
    && |at| == |list| && (forall i, j :: 0 <= i < j < |at| ==> at[i] < at[j])
    && (forall k :: 0 <= k < |at| ==>
          at[k] < |tokens| && tokens[at[k]].Some? && list[k] == (providers[at[k]], tokens[at[k]].value))
    && (forall i :: 0 <= i < |tokens| && tokens[i].Some? ==> i in at)
  }

  lemma PlaceOne(providers: seq<ArrowheadSystem>, tokens: seq<Option<Token>>, list: seq<(ArrowheadSystem, Token)>,
                 at: seq<nat>, t: Option<Token>)
    requires |tokens| < |providers| && Placed(providers, tokens, list, at)
    ensures if t.Some? then Placed(providers, tokens + [t], list + [(providers[|tokens|], t.value)], at + [|tokens|])
            else Placed(providers, tokens + [t], list, at)
  {
    assert forall i :: 0 <= i < |tokens| ==> (tokens + [t])[i] == tokens[i];
  }

  lemma {:induction false} PairsPlaced(providers: seq<ArrowheadSystem>, tokens: seq<Option<Token>>) returns (at: seq<nat>)
    requires |tokens| <= |providers|
    ensures Placed(providers, tokens, Pairs(providers, tokens), at)
  {
    hide Placed;
    at := [];
    if tokens == [] {
      NonePlaced(providers);
    } else {
      var n := |tokens| - 1;
      at := PairsPlaced(providers, tokens[..n]);
      assert tokens == tokens[..n] + [tokens[n]];
      PlaceOne(providers, tokens[..n], Pairs(providers, tokens[..n]), at, tokens[n]);
      if tokens[n].Some? { at := at + [n]; } else { assert Pairs(providers, tokens[..n]) + [] == Pairs(providers, tokens[..n]); }
    }
  }

  lemma NonePlaced(providers: seq<ArrowheadSystem>)
    ensures Placed(providers, [], [], [])
  {
  }

  lemma PairsListed(env: Environment, providers: seq<ArrowheadSystem>) returns (at: seq<nat>)
    ensures |Tokens(Slots(env, providers))| == |providers|
    ensures Listed(env, providers, Pairs(providers, Tokens(Slots(env, providers))), at)
  {
    hide SlotAt, MadeFor, Pairs, Tokens;
    NeverSkipped(env, providers);
    var slots := Slots(env, providers);
    AlignedIffNoneSkipped(slots);
    var tokens := Tokens(slots);
    at := PairsPlaced(providers, tokens);
    forall k | 0 <= k < |at|
      ensures MadeFor(env, providers, at[k], Pairs(providers, tokens)[k])
    {
      assert tokens[at[k]] == TokenOf(slots[at[k]]);
      SlotMade(env, providers, at[k], Pairs(providers, tokens)[k]);
    }
    forall i, p | 0 <= i < |providers| && MadeFor(env, providers, i, p)
      ensures i in at
    {
      MadeForItself(env, providers, i, p);
      SlotMade(env, providers, i, p);
      assert tokens[i] == TokenOf(slots[i]);
    }
  }

  /** The response holds exactly the providers for which a token was made with their own key, each with that token. */
  method TokenGenerationResponse(env: Environment, providers: seq<ArrowheadSystem>)
      returns (r: Result<seq<(ArrowheadSystem, Token)>, Error>)
    ensures r.Failure? ==> r.error == if !AnyKey(env, providers) then NoKey
                                      else if Thrown in Slots(env, providers) then Unserializable else NoToken
    ensures r.Success? <==> AnyKey(env, providers) && Thrown !in Slots(env, providers)
                            && exists i, p :: 0 <= i < |providers| && MadeFor(env, providers, i, p)
    ensures r.Success? ==> forall p :: p in r.value <==> exists i :: 0 <= i < |providers| && MadeFor(env, providers, i, p)
    ensures r.Success? ==> exists at :: Listed(env, providers, r.value, at)
    ensures |Tokens(Slots(env, providers))| == |providers|
    ensures r.Success? ==> r.value == Pairs(providers, Tokens(Slots(env, providers)))
  {
    hide Slots, Tokens, MadeFor, AnyKey, AnyToken, Listed;
    NeverSkipped(env, providers);
    SomeTokenMade(env, providers);
    var tokens := GenerateTokens(env, providers);
    if tokens.Failure? {
      return Failure(tokens.error);
    }
    var list := [];
    for i := 0 to |tokens.value|
      invariant list == Pairs(providers, tokens.value[..i])
    {
      assert tokens.value[..i + 1][..i] == tokens.value[..i];
      if tokens.value[i].Some? {
        list := list + [(providers[i], tokens.value[i].value)];
      }
    }
    assert tokens.value[..|tokens.value|] == tokens.value;
    forall p
      ensures p in list <==> exists i :: 0 <= i < |providers| && MadeFor(env, providers, i, p)
    {
      PairedWithOwnKey(env, providers, p);
    }
    ghost var at := PairsListed(env, providers);
    r := Success(list);
  }

  lemma SomeTokenMade(env: Environment, providers: seq<ArrowheadSystem>)
    ensures AnyToken(Tokens(Slots(env, providers))) <==>
            exists i, p :: 0 <= i < |providers| && MadeFor(env, providers, i, p)
  {
    hide SlotAt, MadeFor, Tokens;
    NeverSkipped(env, providers);
    var slots := Slots(env, providers);
    AlignedIffNoneSkipped(slots);
    var tokens := Tokens(slots);
    if i, p :| 0 <= i < |providers| && MadeFor(env, providers, i, p) {
      MadeForItself(env, providers, i, p);
      SlotMade(env, providers, i, p);
      assert tokens[i] == TokenOf(slots[i]);
    }
    if AnyToken(tokens) {
      var i :| 0 <= i < |tokens| && tokens[i].Some?;
      assert tokens[i] == TokenOf(slots[i]);
      SlotMade(env, providers, i, (providers[i], tokens[i].value));
    }
  }
}
