/**
 What a policy statement grants, said without the matchers: whom a principal admits, which actions and resources
 are covered, when a condition holds.
 */
module PolicyMeaning {
  import opened Base
  import opened Glob
  import opened Policy

  // ---------------------------------------------------------------- principals

  ghost predicate ForEveryone(p: Value) {
    || p == JString("*")
    || (p.JObject? && "AWS" in p.fields
        && (p.fields["AWS"] == JString("*") || (p.fields["AWS"].JArray? && JString("*") in p.fields["AWS"].items)))
  }

  /** An ARN that a principal names. */
  ghost predicate NamesArn(p: Value, arn: string) {
    && arn != "*"
    && (|| p == JString(arn)
        || (p.JObject? && "AWS" in p.fields
            && (p.fields["AWS"] == JString(arn) || (p.fields["AWS"].JArray? && JString(arn) in p.fields["AWS"].items))))
  }

  predicate UserMark(arn: string, i: int) {
    0 <= i <= |arn| - 6 && arn[i..i + 6] == ":user/"
  }

  /** What follows the last `:user/` is this access key. */
  ghost predicate IsUser(arn: string, k: string) {
    k != "" && exists i :: UserMark(arn, i) && arn[i + 6..] == k && forall j :: j > i ==> !UserMark(arn, j)
  }

  lemma {:induction false} AccessKeyIs(arn: string, end: nat, k: string)
    requires end <= |arn| && forall j :: j > end - 6 ==> !UserMark(arn, j)
    ensures AccessKeyOf(arn, end) == Some(k) <==> IsUser(arn, k)
    decreases end
  {
    if UserMark(arn, end - 6) {
      assert forall i :: UserMark(arn, i) && (forall j :: j > i ==> !UserMark(arn, j)) ==> i == end - 6;
    } else if end > 0 {
      AccessKeyIs(arn, end - 1, k);
    }
  }

  lemma {:induction false} StringsAre(items: seq<Value>, arn: string)
    ensures arn in Strings(items) <==> arn != "*" && JString(arn) in items
  {
    if items != [] {
      StringsAre(items[1..], arn);
      assert items == [items[0]] + items[1..];
    }
  }

  lemma ArnsAre(p: Value, arn: string)
    ensures arn in PrincipalArns(p) <==> NamesArn(p, arn)
  {
    if p.JObject? && "AWS" in p.fields && p.fields["AWS"].JArray? {
      StringsAre(p.fields["AWS"].items, arn);
    }
  }

  lemma PrincipalIff(p: Value, ctx: Context)
    ensures PrincipalMatches(p, ctx) <==>
              ForEveryone(p) || (ctx.accessKey.Some? && exists arn :: NamesArn(p, arn) && IsUser(arn, ctx.accessKey.value))
  {
    hide PrincipalArns, NamesArn, IsUser, AccessKeyOf;
    if ctx.accessKey.Some? {
      forall arn
        ensures arn in PrincipalArns(p) <==> NamesArn(p, arn)
        ensures AccessKeyOf(arn, |arn|) == ctx.accessKey <==> IsUser(arn, ctx.accessKey.value)
      {
        ArnsAre(p, arn);
        AccessKeyIs(arn, |arn|, ctx.accessKey.value);
      }
    }
  }

  // ---------------------------------------------------------------- actions

  /** `s3:` in any casing, and a name. */
  ghost predicate S3Action(a: string, name: string) {
    |a| >= 3 && EqIgnoreCase(a[..2], "s3") && a[2] == ':' && a[3..] == name
  }

  /** All of the service, the same action of the service, or literally the same. */
  ghost predicate ActionCovers(a: string, requested: string) {
    S3Action(a, "*") || (exists name :: S3Action(a, name) && S3Action(requested, name)) || a == requested
  }

  lemma {:induction false} ColonAt(a: string, from: nat)
    requires from <= |a|
    ensures var i := FindColon(a, from); (forall j :: from <= j < i ==> a[j] != ':') && (i < |a| ==> a[i] == ':')
    decreases |a| - from
  {
    if from < |a| && a[from] != ':' {
      ColonAt(a, from + 1);
    }
  }

  lemma NormalizeIs(a: string)
    ensures if |a| >= 3 && EqIgnoreCase(a[..2], "s3") && a[2] == ':' then Normalize(a) == "s3:" + a[3..]
            else Normalize(a) == a && (|a| >= 3 ==> a[..3] != "s3:")
  {
    ColonAt(a, 0);
    var i := FindColon(a, 0);
    if |a| >= 3 && EqIgnoreCase(a[..2], "s3") && a[2] == ':' {
      assert a[..2][0] == a[0] && a[..2][1] == a[1] && Lower(a[0]) == 's' && Lower(a[1]) == '3';
      assert i == 2;
    }
    if |a| >= 3 && a[..3] == "s3:" {
      assert a[..3][0] == 's' && a[..3][1] == '3' && a[..3][2] == ':';
      assert a[..2] == "s3";
    }
  }

  lemma ActionIff(a: string, requested: string)
    ensures Normalize(a) == "s3:*" || Normalize(a) == Normalize(requested) <==> ActionCovers(a, requested)
  {
    NormalizeIs(a);
    NormalizeIs(requested);
    hide Normalize, EqIgnoreCase;
    var s3a, s3r := |a| >= 3 && EqIgnoreCase(a[..2], "s3") && a[2] == ':', |requested| >= 3 && EqIgnoreCase(requested[..2], "s3") && requested[2] == ':';
    if s3a {
      assert S3Action(a, a[3..]) && ("s3:" + a[3..])[3..] == a[3..] && "s3:*"[3..] == "*";
    }
    if s3r {
      assert S3Action(requested, requested[3..]) && ("s3:" + requested[3..])[3..] == requested[3..];
      assert ("s3:" + requested[3..])[..3] == "s3:";
    }
    assert ("s3:" + a[if s3a then 3 else 0..])[..3] == "s3:" && "s3:*"[..3] == "s3:";
  }

  // ---------------------------------------------------------------- resources

  /** What a request is about: the bucket when it lists, else the object, or all objects if it names none. */
  ghost predicate IsTarget(target: string, req: Request) {
    target == "arn:aws:s3:::" + req.bucket +
      if req.action == "s3:ListBucket" then "" else "/" + if req.objectKey.Some? then req.objectKey.value else "*"
  }

  ghost predicate ResourceCovers(p: string, target: string, bucket: string) {
    || p == "*" || p == target
    || (('*' in p || '?' in p) && GlobMatches(p, target))
    || ('*' !in p && '?' !in p && p == "arn:aws:s3:::" + bucket)
  }

  lemma TargetIs(req: Request) returns (target: string)
    ensures IsTarget(target, req)
    ensures target == if req.action == "s3:ListBucket" then BucketArn(req.bucket) else ObjectArn(req.bucket, req.objectKey)
    ensures StartsWith(target, BucketArn(req.bucket)) && BucketArn(req.bucket) == "arn:aws:s3:::" + req.bucket
  {
    target := if req.action == "s3:ListBucket" then BucketArn(req.bucket) else ObjectArn(req.bucket, req.objectKey);
    assert target[..|BucketArn(req.bucket)|] == BucketArn(req.bucket);
    assert "arn:aws:s3:::" + req.bucket + "" == "arn:aws:s3:::" + req.bucket;
    var rest := if req.objectKey.Some? then req.objectKey.value else "*";
    Regrouped("arn:aws:s3:::" + req.bucket, "/", rest);
  }

  lemma Regrouped(a: string, b: string, c: string)
    ensures (a + b) + c == a + (b + c)
  {
  }

  lemma ResourceIff(resources: Policy.Names, req: Request)
    ensures ResourceMatches(resources, req) <==>
              exists p, target :: p in List(resources) && IsTarget(target, req) && ResourceCovers(p, target, req.bucket)
  {
    var target := TargetIs(req);
    hide GlobMatches, BucketArn, ObjectArn, StartsWith, List;
    assert forall t :: IsTarget(t, req) ==> t == target;
    assert forall p :: ResourcePatternMatches(p, target, BucketArn(req.bucket)) <==> ResourceCovers(p, target, req.bucket);
  }

  // ---------------------------------------------------------------- conditions

  /** A value of a condition: the string itself or one of an array. */
  ghost predicate Listed(v: Value, s: string) {
    v == JString(s) || (v.JArray? && JString(s) in v.items)
  }

  ghost predicate Compares(operator: string, pattern: string, value: string) {
    || (EqIgnoreCase(operator, "StringEquals") && pattern == value)
    || (EqIgnoreCase(operator, "StringLike") && GlobMatches(pattern, value))
  }

  /** Some listed pattern fits some of the values. */
  ghost predicate SomeFits(operator: string, v: Value, values: seq<string>) {
    exists p, x :: Listed(v, p) && x in values && Compares(operator, p, x)
  }

  /** One line of a condition block. */
  ghost predicate LineHolds(operator: string, key: string, v: Value, req: Request, ctx: Context) {
    || (key == "aws:SourceIp" && EqIgnoreCase(operator, "IpAddress") && ctx.sourceIp.Some?
        && exists block :: Listed(v, block) && ctx.ipInCidr(ctx.sourceIp.value, block))
    || (key == "s3:prefix" && SomeFits(operator, v, [if req.listPrefix.Some? then req.listPrefix.value
                                                     else if req.objectKey.Some? then req.objectKey.value else ""]))
    || (key == "jwt:groups" && SomeFits(operator, v, ctx.groups))
    || (key == "jwt:roles" && SomeFits(operator, v, ctx.roles))
  }

  /** Every line holds, under every operator. */
  ghost predicate ConditionHolds(c: Value, req: Request, ctx: Context) {
    && c.JObject?
    && forall operator :: operator in c.fields ==>
         && c.fields[operator].JObject?
         && forall key :: key in c.fields[operator].fields ==> LineHolds(operator, key, c.fields[operator].fields[key], req, ctx)
  }

  lemma {:induction false} AllStringsAre(items: seq<Value>, s: string)
    ensures s in AllStrings(items) <==> JString(s) in items
  {
    if items != [] {
      AllStringsAre(items[1..], s);
      assert items == [items[0]] + items[1..];
    }
  }

  lemma ListedIff(v: Value, s: string)
    ensures s in ConditionValues(v) <==> Listed(v, s)
  {
    if v.JArray? {
      AllStringsAre(v.items, s);
    }
  }

  lemma ComparesIff(operator: string, p: string, x: string)
    ensures OperatorMatches(operator, p, x) <==> Compares(operator, p, x)
  {
    hide GlobMatches;
    assert |"StringEquals"| != |"StringLike"|;
  }

  lemma ClaimIff(operator: string, v: Value, values: seq<string>)
    ensures ClaimMatches(operator, v, values) <==> SomeFits(operator, v, values)
  {
    hide ConditionValues, Listed, OperatorMatches, Compares;
    forall p
      ensures p in ConditionValues(v) <==> Listed(v, p)
    {
      ListedIff(v, p);
    }
    forall p, x
      ensures OperatorMatches(operator, p, x) <==> Compares(operator, p, x)
    {
      ComparesIff(operator, p, x);
    }
  }

  lemma LineIff(operator: string, key: string, v: Value, req: Request, ctx: Context)
    ensures ConditionKeyMatches(operator, key, v, req, ctx) <==> LineHolds(operator, key, v, req, ctx)
  {
    ClaimIff(operator, v, ctx.groups);
    ClaimIff(operator, v, ctx.roles);
    var prefix := if req.listPrefix.Some? then req.listPrefix.value else if req.objectKey.Some? then req.objectKey.value else "";
    ClaimIff(operator, v, [prefix]);
    hide ConditionValues, Listed, OperatorMatches, SomeFits, EqIgnoreCase;
    forall p
      ensures p in ConditionValues(v) <==> Listed(v, p)
    {
      ListedIff(v, p);
    }
    assert prefix in [prefix];
  }

  lemma ConditionIff(c: Value, req: Request, ctx: Context)
    ensures ConditionsMatch(c, req, ctx) <==> ConditionHolds(c, req, ctx)
  {
    hide ConditionKeyMatches, LineHolds;
    forall operator: string, key: string, v: Value
      ensures ConditionKeyMatches(operator, key, v, req, ctx) <==> LineHolds(operator, key, v, req, ctx)
    {
      LineIff(operator, key, v, req, ctx);
    }
  }

  // ---------------------------------------------------------------- statements and documents

  /** When a statement applies to a request of a caller. */
  ghost predicate Applies(s: Statement, req: Request, ctx: Context) {
    && (ForEveryone(s.principal)
        || (ctx.accessKey.Some? && exists arn :: NamesArn(s.principal, arn) && IsUser(arn, ctx.accessKey.value)))
    && (exists a :: Contains(s.action, a) && ActionCovers(a, req.action))
    && (exists p, target :: Contains(s.resource, p) && IsTarget(target, req) && ResourceCovers(p, target, req.bucket))
    && (s.condition.Some? ==> ConditionHolds(s.condition.value, req, ctx))
  }

  ghost predicate Contains(n: Policy.Names, s: string) {
    n == One(s) || (n.Many? && s in n.names)
  }

  lemma ContainsIff(n: Policy.Names, s: string)
    ensures s in List(n) <==> Contains(n, s)
  {
  }

  lemma StatementIff(s: Statement, req: Request, ctx: Context)
    ensures StatementMatches(s, req, ctx) <==> Applies(s, req, ctx)
  {
    hide PrincipalMatches, ResourceMatches, ConditionsMatch, ForEveryone, NamesArn, IsUser, ConditionHolds, ActionCovers, Normalize, IsTarget, ResourceCovers;
    PrincipalIff(s.principal, ctx);
    ResourceIff(s.resource, req);
    if s.condition.Some? {
      ConditionIff(s.condition.value, req, ctx);
    }
    forall a
      ensures a in List(s.action) <==> Contains(s.action, a)
      ensures a in List(s.resource) <==> Contains(s.resource, a)
      ensures Normalize(a) == "s3:*" || Normalize(a) == Normalize(req.action) <==> ActionCovers(a, req.action)
    {
      ActionIff(a, req.action);
      ContainsIff(s.action, a);
      ContainsIff(s.resource, a);
    }
    hide List, Contains;
  }

  /** A deny that applies decides; else an allow that applies; else nothing is granted. */
  lemma DecisionIff(d: Document, req: Request, ctx: Context)
    ensures DecisionOf(d, req, ctx) == Deny <==> exists s :: s in d.statements && Applies(s, req, ctx) && EqIgnoreCase(s.effect, "Deny")
    ensures DecisionOf(d, req, ctx) == Allow <==>
              && (forall s :: s in d.statements && Applies(s, req, ctx) ==> !EqIgnoreCase(s.effect, "Deny"))
              && exists s :: s in d.statements && Applies(s, req, ctx) && EqIgnoreCase(s.effect, "Allow")
  {
    hide StatementMatches, Applies, EqIgnoreCase;
    forall s
      ensures StatementMatches(s, req, ctx) <==> Applies(s, req, ctx)
    {
      StatementIff(s, req, ctx);
    }
    assert forall i :: 0 <= i < |d.statements| ==> d.statements[i] in d.statements;
  }

  function Only(s: Statement): Document {
    Document("2012-10-17", [s])
  }

  lemma OnlyIs(s: Statement, req: Request, ctx: Context)
    ensures DecisionOf(Only(s), req, ctx) == Allow <==> Applies(s, req, ctx) && EqIgnoreCase(s.effect, "Allow")
  {
    DecisionIff(Only(s), req, ctx);
    hide DecisionOf, Applies;
    assert s in Only(s).statements;
    assert EqIgnoreCase(s.effect, "Allow") ==> !EqIgnoreCase(s.effect, "Deny") by {
      assert |"Allow"| != |"Deny"|;
    }
  }

  // ---------------------------------------------------------------- laws

  /** A condition narrows a grant to the requests for which it holds, and does nothing else. */
  lemma ConditionNarrows(s: Statement, c: Value, req: Request, ctx: Context)
    ensures DecisionOf(Only(s.(condition := Some(c))), req, ctx) == Allow <==>
              DecisionOf(Only(s.(condition := None)), req, ctx) == Allow && ConditionHolds(c, req, ctx)
  {
    OnlyIs(s.(condition := Some(c)), req, ctx);
    OnlyIs(s.(condition := None), req, ctx);
    hide DecisionOf, ConditionHolds, ForEveryone, NamesArn, IsUser, ActionCovers, ResourceCovers, IsTarget, EqIgnoreCase;
  }

  /** A condition of one line. */
  function Line(operator: string, key: string, v: Value): Value {
    JObject(map[operator := JObject(map[key := v])])
  }

  lemma LineAlone(operator: string, key: string, v: Value, req: Request, ctx: Context)
    ensures ConditionHolds(Line(operator, key, v), req, ctx) <==> LineHolds(operator, key, v, req, ctx)
  {
    hide LineHolds;
    var c := Line(operator, key, v);
    assert operator in c.fields && key in c.fields[operator].fields;
  }

  /** A grant for some address blocks reaches the callers whose address is known and in one of them. */
  lemma AddressLaw(s: Statement, blocks: seq<string>, req: Request, ctx: Context)
    ensures var v := JArray(seq(|blocks|, i requires 0 <= i < |blocks| => JString(blocks[i])));
            DecisionOf(Only(s.(condition := Some(Line("IpAddress", "aws:SourceIp", v)))), req, ctx) == Allow <==>
              && DecisionOf(Only(s.(condition := None)), req, ctx) == Allow
              && ctx.sourceIp.Some? && exists i :: 0 <= i < |blocks| && ctx.ipInCidr(ctx.sourceIp.value, blocks[i])
  {
    var v := JArray(seq(|blocks|, i requires 0 <= i < |blocks| => JString(blocks[i])));
    ConditionNarrows(s, Line("IpAddress", "aws:SourceIp", v), req, ctx);
    LineAlone("IpAddress", "aws:SourceIp", v, req, ctx);
    hide DecisionOf, ConditionHolds;
    ListedItems(blocks);
    assert LineHolds("IpAddress", "aws:SourceIp", v, req, ctx) <==>
             ctx.sourceIp.Some? && exists block :: Listed(v, block) && ctx.ipInCidr(ctx.sourceIp.value, block);
  }

  lemma ListedItems(ss: seq<string>)
    ensures var v := JArray(seq(|ss|, i requires 0 <= i < |ss| => JString(ss[i]))); forall s :: Listed(v, s) <==> s in ss
  {
    var v := JArray(seq(|ss|, i requires 0 <= i < |ss| => JString(ss[i])));
    forall s
      ensures Listed(v, s) <==> s in ss
    {
      if s in ss {
        var i :| 0 <= i < |ss| && ss[i] == s;
        assert v.items[i] == JString(s);
      }
    }
  }

  /** A grant for some groups or roles reaches the callers with one of them. */
  lemma ClaimLaw(s: Statement, roles: bool, wanted: seq<string>, req: Request, ctx: Context)
    ensures var v := JArray(seq(|wanted|, i requires 0 <= i < |wanted| => JString(wanted[i])));
            DecisionOf(Only(s.(condition := Some(Line("StringEquals", if roles then "jwt:roles" else "jwt:groups", v)))), req, ctx) == Allow <==>
              && DecisionOf(Only(s.(condition := None)), req, ctx) == Allow
              && exists x :: x in wanted && x in if roles then ctx.roles else ctx.groups
  {
    var v := JArray(seq(|wanted|, i requires 0 <= i < |wanted| => JString(wanted[i])));
    var key := if roles then "jwt:roles" else "jwt:groups";
    ConditionNarrows(s, Line("StringEquals", key, v), req, ctx);
    LineAlone("StringEquals", key, v, req, ctx);
    ListedItems(wanted);
    EqualsCompares();
    hide *;
    ClaimLine(roles, v, req, ctx);
  }

  lemma EqualsCompares()
    ensures forall p, x :: Compares("StringEquals", p, x) <==> p == x
  {
    hide GlobMatches;
    assert |"StringEquals"| != |"StringLike"|;
  }

  lemma ClaimLine(roles: bool, v: Value, req: Request, ctx: Context)
    ensures LineHolds("StringEquals", if roles then "jwt:roles" else "jwt:groups", v, req, ctx) <==>
              exists x :: Listed(v, x) && x in if roles then ctx.roles else ctx.groups
  {
    EqualsCompares();
    hide Listed, Compares;
    assert |"jwt:roles"| != |"jwt:groups"| && "jwt:roles"[0] != "aws:SourceIp"[0] && "jwt:roles"[0] != "s3:prefix"[0];
  }

  /** A grant for prefixes like some patterns reaches the requests whose prefix, if it has no star, means one of them. */
  lemma PrefixLaw(s: Statement, patterns: seq<string>, prefix: string, req: Request, ctx: Context)
    requires req.listPrefix == Some(prefix) && '*' !in prefix
    ensures var v := JArray(seq(|patterns|, i requires 0 <= i < |patterns| => JString(patterns[i])));
            DecisionOf(Only(s.(condition := Some(Line("StringLike", "s3:prefix", v)))), req, ctx) == Allow <==>
              && DecisionOf(Only(s.(condition := None)), req, ctx) == Allow
              && exists p :: p in patterns && Matches(p, prefix)
  {
    var v := JArray(seq(|patterns|, i requires 0 <= i < |patterns| => JString(patterns[i])));
    ConditionNarrows(s, Line("StringLike", "s3:prefix", v), req, ctx);
    LineAlone("StringLike", "s3:prefix", v, req, ctx);
    ListedItems(patterns);
    hide DecisionOf, ConditionHolds, GlobMatches, Listed, Matches;
    assert |"StringEquals"| != |"StringLike"|;
    forall p
      ensures Compares("StringLike", p, prefix) <==> Matches(p, prefix)
    {
      Sound(p, prefix);
      Complete(p, prefix);
    }
    assert prefix in [prefix];
  }

  /** A grant to one user reaches exactly the caller with that access key, as far as it reaches everyone. */
  lemma UserLaw(s: Statement, path: string, k: string, req: Request, ctx: Context)
    requires k != "" && forall i :: i > |path| ==> !UserMark(path + ":user/" + k, i)
    ensures DecisionOf(Only(s.(principal := JString(path + ":user/" + k))), req, ctx) == Allow <==>
              DecisionOf(Only(s.(principal := JString("*"))), req, ctx) == Allow && ctx.accessKey == Some(k)
  {
    var arn := path + ":user/" + k;
    var one, all := s.(principal := JString(arn)), s.(principal := JString("*"));
    NamesOne(path, k, ctx);
    hide *;
    OnlyIs(one, req, ctx);
    OnlyIs(all, req, ctx);
    AppliesTo(all, one, arn, k, req, ctx);
  }

  lemma NamesOne(path: string, k: string, ctx: Context)
    requires k != "" && forall i :: i > |path| ==> !UserMark(path + ":user/" + k, i)
    ensures var arn := path + ":user/" + k;
            && !ForEveryone(JString(arn))
            && (ctx.accessKey == Some(k) <==> ctx.accessKey.Some? && exists a :: NamesArn(JString(arn), a) && IsUser(a, ctx.accessKey.value))
  {
    var arn := path + ":user/" + k;
    assert arn[|path|..|path| + 6] == ":user/" && arn[|path| + 6..] == k;
    assert UserMark(arn, |path|) && |arn| > 1;
    assert IsUser(arn, k) && NamesArn(JString(arn), arn);
    assert forall x :: IsUser(arn, x) ==> x == k;
    assert forall a :: NamesArn(JString(arn), a) ==> a == arn;
  }

  lemma AppliesTo(all: Statement, one: Statement, arn: string, k: string, req: Request, ctx: Context)
    requires one == all.(principal := JString(arn)) && all.principal == JString("*") && !ForEveryone(JString(arn))
    requires ctx.accessKey == Some(k) <==> ctx.accessKey.Some? && exists a :: NamesArn(JString(arn), a) && IsUser(a, ctx.accessKey.value)
    ensures Applies(one, req, ctx) <==> Applies(all, req, ctx) && ctx.accessKey == Some(k)
  {
    hide ConditionHolds, IsUser, NamesArn, ActionCovers, ResourceCovers, IsTarget, Contains;
  }

  /** Only a principal for everyone reaches a caller without credentials. */
  lemma AnonymousLaw(s: Statement, req: Request, ctx: Context)
    requires ctx.accessKey.None? && DecisionOf(Only(s), req, ctx) == Allow
    ensures ForEveryone(s.principal)
  {
    OnlyIs(s, req, ctx);
  }

  /** The documents of the v1 subset, written out. */
  lemma V1DocumentIff(bucket: string, d: Document)
    ensures V1Document(bucket, d) <==>
              && (d.version == "" || d.version == "2012-10-17")
              && forall s :: s in d.statements ==>
                   && s.condition.None? && EqIgnoreCase(s.effect, "Allow") && ForEveryone(s.principal)
                   && forall a :: Contains(s.action, a) ==>
                        || (S3Action(a, "GetObject") && (Contains(s.resource, "*") || Contains(s.resource, "arn:aws:s3:::" + bucket + "/" + "*")))
                        || (S3Action(a, "ListBucket") && (Contains(s.resource, "*") || Contains(s.resource, "arn:aws:s3:::" + bucket)))
  {
    hide EqIgnoreCase, List, Contains, Normalize;
    forall n, s
      ensures s in List(n) <==> Contains(n, s)
    {
      ContainsIff(n, s);
    }
    forall a
      ensures Normalize(a) == "s3:GetObject" <==> S3Action(a, "GetObject")
      ensures Normalize(a) == "s3:ListBucket" <==> S3Action(a, "ListBucket")
    {
      NamedIff(a, "GetObject");
      NamedIff(a, "ListBucket");
      assert "s3:" + "GetObject" == "s3:GetObject" && "s3:" + "ListBucket" == "s3:ListBucket";
    }
    assert forall s :: V1Statement(bucket, s) <==>
                         && s.condition.None? && EqIgnoreCase(s.effect, "Allow") && ForEveryone(s.principal)
                         && forall a :: a in List(s.action) ==> V1Action(bucket, s.resource, a);
  }

  lemma NamedIff(a: string, name: string)
    ensures Normalize(a) == "s3:" + name <==> S3Action(a, name)
  {
    NormalizeIs(a);
    hide Normalize, EqIgnoreCase;
    assert ("s3:" + name)[3..] == name && ("s3:" + name)[..3] == "s3:";
    if |a| >= 3 {
      assert ("s3:" + a[3..])[3..] == a[3..];
    }
  }
}
