/** Bucket policies: the v1 evaluator, which yields public flags, and the v2 evaluator of single requests. */
module Policy {
  import opened Base
  import opened Glob

  /** Parsed JSON, as far as policies look into it. */
  datatype Value = JString(s: string) | JArray(items: seq<Value>) | JObject(fields: map<string, Value>) | JOther

  datatype Names = One(name: string) | Many(names: seq<string>)

  datatype Statement = Statement(effect: string, principal: Value, action: Names, resource: Names, condition: Option<Value>)

  datatype Document = Document(version: string, statements: seq<Statement>)

  datatype Request = Request(action: string, bucket: string, objectKey: Option<string>, listPrefix: Option<string>)

  /** The caller. How an address is matched against a CIDR block is library code. */
  datatype Context = Context(
    accessKey: Option<string>,
    sourceIp: Option<string>,
    groups: seq<string>,
    roles: seq<string>,
    ipInCidr: (string, string) -> bool)

  datatype Effects = Effects(publicRead: bool, publicList: bool)
  datatype Decision = Allow | Deny | ImplicitDeny
  datatype PolicyError = BadVersion | Unsupported

  // ---------------------------------------------------------------- matchers

  function List(n: Names): seq<string> {
    match n
    case One(s) => [s]
    case Many(ss) => ss
  }

  function FindColon(a: string, from: nat): (r: nat)
    requires from <= |a|
    ensures from <= r <= |a|
    decreases |a| - from
  {
    if from == |a| || a[from] == ':' then from else FindColon(a, from + 1)
  }

  /** `normalize_action`: the service prefix is folded to `s3:`. */
  function Normalize(action: string): string {
    var i := FindColon(action, 0);
    if i < |action| && EqIgnoreCase(action[..i], "s3") then "s3:" + action[i + 1..] else action
  }

  predicate IsWildcard(principal: Value) {
    match principal
    case JString(s) => s == "*"
    case JObject(m) =>
      && "AWS" in m
      && match m["AWS"] {
           case JString(s) => s == "*"
           case JArray(items) => JString("*") in items
           case _ => false
         }
    case _ => false
  }

  function Strings(items: seq<Value>): seq<string> {
    if items == [] then []
    else (if items[0].JString? && items[0].s != "*" then [items[0].s] else []) + Strings(items[1..])
  }

  function PrincipalArns(principal: Value): seq<string> {
    match principal
    case JString(s) => if s != "*" then [s] else []
    case JObject(m) =>
      if "AWS" in m && m["AWS"].JString? then (if m["AWS"].s != "*" then [m["AWS"].s] else [])
      else if "AWS" in m && m["AWS"].JArray? then Strings(m["AWS"].items)
      else []
    case _ => []
  }

  /** `rsplit_once(":user/")`: the text after the last occurrence, if it is not empty. */
  function AccessKeyOf(arn: string, end: nat): Option<string>
    requires end <= |arn|
  {
    var sep := ":user/";
    if end < |sep| then None
    else if arn[end - |sep|..end] == sep then (if end == |arn| then None else Some(arn[end..]))
    else AccessKeyOf(arn, end - 1)
  }

  predicate PrincipalMatches(principal: Value, ctx: Context) {
    || IsWildcard(principal)
    || (ctx.accessKey.Some? && exists arn :: arn in PrincipalArns(principal) && AccessKeyOf(arn, |arn|) == ctx.accessKey)
  }

  predicate ActionsMatch(actions: Names, requested: string) {
    exists a :: a in List(actions) && (Normalize(a) == "s3:*" || Normalize(a) == Normalize(requested))
  }

  predicate ResourcePatternMatches(pattern: string, target: string, bucketArn: string) {
    if pattern == "*" || pattern == target then true
    else if '*' in pattern || '?' in pattern then GlobMatches(pattern, target)
    else pattern == bucketArn && StartsWith(target, bucketArn)
  }

  function BucketArn(bucket: string): string {
    "arn:aws:s3:::" + bucket
  }

  function ObjectArn(bucket: string, key: Option<string>): string {
    BucketArn(bucket) + "/" + (if key.Some? then key.value else "*")
  }

  predicate ResourceMatches(resources: Names, req: Request) {
    var target := if req.action == "s3:ListBucket" then BucketArn(req.bucket) else ObjectArn(req.bucket, req.objectKey);
    exists p :: p in List(resources) && ResourcePatternMatches(p, target, BucketArn(req.bucket))
  }

  function ConditionValues(v: Value): seq<string> {
    match v
    case JString(s) => [s]
    case JArray(items) => AllStrings(items)
    case _ => []
  }

  function AllStrings(items: seq<Value>): seq<string> {
    if items == [] then []
    else (if items[0].JString? then [items[0].s] else []) + AllStrings(items[1..])
  }

  predicate OperatorMatches(operator: string, pattern: string, value: string) {
    if EqIgnoreCase(operator, "StringEquals") then value == pattern
    else EqIgnoreCase(operator, "StringLike") && GlobMatches(pattern, value)
  }

  predicate ConditionKeyMatches(operator: string, key: string, expected: Value, req: Request, ctx: Context) {
    if key == "aws:SourceIp" && EqIgnoreCase(operator, "IpAddress") then
      ctx.sourceIp.Some? && exists p :: p in ConditionValues(expected) && ctx.ipInCidr(ctx.sourceIp.value, p)
    else if key == "s3:prefix" then
      var prefix := if req.listPrefix.Some? then req.listPrefix.value
                    else if req.objectKey.Some? then req.objectKey.value else "";
      exists p :: p in ConditionValues(expected) && OperatorMatches(operator, p, prefix)
    else if key == "jwt:groups" then ClaimMatches(operator, expected, ctx.groups)
    else key == "jwt:roles" && ClaimMatches(operator, expected, ctx.roles)
  }

  predicate ClaimMatches(operator: string, expected: Value, actual: seq<string>) {
    exists p, a :: p in ConditionValues(expected) && a in actual && OperatorMatches(operator, p, a)
  }

  predicate ConditionsMatch(condition: Value, req: Request, ctx: Context) {
    && condition.JObject?
    && forall operator :: operator in condition.fields ==>
         && condition.fields[operator].JObject?
         && forall key :: key in condition.fields[operator].fields ==>
              ConditionKeyMatches(operator, key, condition.fields[operator].fields[key], req, ctx)
  }

  /** `statement_matches_request` */
  predicate StatementMatches(s: Statement, req: Request, ctx: Context) {
    && PrincipalMatches(s.principal, ctx)
    && ActionsMatch(s.action, req.action)
    && ResourceMatches(s.resource, req)
    && (s.condition.Some? ==> ConditionsMatch(s.condition.value, req, ctx))
  }

  predicate VersionOk(d: Document) {
    d.version == "" || d.version == "2012-10-17"
  }

  // ---------------------------------------------------------------- evaluation of one request

  ghost predicate SomeMatch(d: Document, req: Request, ctx: Context, n: nat, effect: string)
    requires n <= |d.statements|
  {
    exists i :: 0 <= i < n && StatementMatches(d.statements[i], req, ctx) && EqIgnoreCase(d.statements[i].effect, effect)
  }

  /** The decision a document stands for: an explicit deny wins, then an allow, then the default. */
  ghost function DecisionOf(d: Document, req: Request, ctx: Context): Decision {
    if SomeMatch(d, req, ctx, |d.statements|, "Deny") then Deny
    else if SomeMatch(d, req, ctx, |d.statements|, "Allow") then Allow
    else ImplicitDeny
  }

  ghost predicate EffectsKnown(d: Document, req: Request, ctx: Context, n: nat)
    requires n <= |d.statements|
  {
    forall i :: 0 <= i < n && StatementMatches(d.statements[i], req, ctx) ==>
      EqIgnoreCase(d.statements[i].effect, "Deny") || EqIgnoreCase(d.statements[i].effect, "Allow")
  }

  /** `evaluate_policy_v2` */
  method EvaluateV2(d: Document, req: Request, ctx: Context) returns (r: Result<Decision, PolicyError>)
    ensures r.Ok? <==> VersionOk(d) && EffectsKnown(d, req, ctx, |d.statements|)
    ensures r == Err(BadVersion) <==> d.version !in {"", "2012-10-17"}
    ensures r.Ok? ==> r.value == DecisionOf(d, req, ctx)
  {
    hide StatementMatches, EqIgnoreCase;
    if !VersionOk(d) {
      return Err(BadVersion);
    }
    var allowMatch, denyMatch := false, false;
    for i := 0 to |d.statements|
      invariant EffectsKnown(d, req, ctx, i)
      invariant denyMatch <==> SomeMatch(d, req, ctx, i, "Deny")
      invariant SomeMatch(d, req, ctx, i, "Allow") ==> allowMatch || denyMatch
      invariant allowMatch ==> SomeMatch(d, req, ctx, i, "Allow")
    {
      var s := d.statements[i];
      if StatementMatches(s, req, ctx) {
        if EqIgnoreCase(s.effect, "Deny") {
          denyMatch := true;
        } else if EqIgnoreCase(s.effect, "Allow") {
          allowMatch := true;
        } else {
          return Err(Unsupported);
        }
      }
    }
    return Ok(if denyMatch then Deny else if allowMatch then Allow else ImplicitDeny);
  }

  // ---------------------------------------------------------------- public flags

  predicate AnyResource(resources: Names, expected: string) {
    exists r :: r in List(resources) && (r == expected || r == "*")
  }

  /** An action the v1 subset accepts on this resource list. */
  predicate V1Action(bucket: string, resources: Names, action: string) {
    if Normalize(action) == "s3:GetObject" then AnyResource(resources, ObjectArn(bucket, None))
    else Normalize(action) == "s3:ListBucket" && AnyResource(resources, BucketArn(bucket))
  }

  predicate V1Statement(bucket: string, s: Statement) {
    && s.condition.None?
    && EqIgnoreCase(s.effect, "Allow")
    && IsWildcard(s.principal)
    && forall a :: a in List(s.action) ==> V1Action(bucket, s.resource, a)
  }

  /** The documents the v1 subset accepts. */
  predicate V1Document(bucket: string, d: Document) {
    VersionOk(d) && forall i :: 0 <= i < |d.statements| ==> V1Statement(bucket, d.statements[i])
  }

  predicate HasAction(s: Statement, action: string) {
    exists a :: a in List(s.action) && Normalize(a) == action
  }

  /** One of the first `n` statements names the action. */
  ghost predicate Mentions(d: Document, n: nat, action: string)
    requires n <= |d.statements|
  {
    exists i :: 0 <= i < n && HasAction(d.statements[i], action)
  }

  /** The inner loop of `evaluate_v1_policy`: the actions of one statement. */
  method ApplyActions(bucket: string, s: Statement, before: Effects) returns (r: Result<Effects, PolicyError>)
    ensures r.Ok? <==> forall a :: a in List(s.action) ==> V1Action(bucket, s.resource, a)
    ensures r.Err? ==> r.error == Unsupported
    ensures r.Ok? ==> (r.value.publicRead <==> before.publicRead || HasAction(s, "s3:GetObject"))
    ensures r.Ok? ==> (r.value.publicList <==> before.publicList || HasAction(s, "s3:ListBucket"))
  {
    hide Normalize, AnyResource, ObjectArn, BucketArn;
    var effects := before;
    var actions := List(s.action);
    for i := 0 to |actions|
      invariant forall j :: 0 <= j < i ==> V1Action(bucket, s.resource, actions[j])
      invariant effects.publicRead <==> before.publicRead || exists j :: 0 <= j < i && Normalize(actions[j]) == "s3:GetObject"
      invariant effects.publicList <==> before.publicList || exists j :: 0 <= j < i && Normalize(actions[j]) == "s3:ListBucket"
    {
      var action := Normalize(actions[i]);
      if action == "s3:GetObject" {
        if !AnyResource(s.resource, ObjectArn(bucket, None)) {
          assert actions[i] in List(s.action) && !V1Action(bucket, s.resource, actions[i]);
          return Err(Unsupported);
        }
        effects := effects.(publicRead := true);
      } else if action == "s3:ListBucket" {
        if !AnyResource(s.resource, BucketArn(bucket)) {
          assert actions[i] in List(s.action) && !V1Action(bucket, s.resource, actions[i]);
          return Err(Unsupported);
        }
        effects := effects.(publicList := true);
      } else {
        assert actions[i] in List(s.action) && !V1Action(bucket, s.resource, actions[i]);
        return Err(Unsupported);
      }
    }
    return Ok(effects);
  }

  /** `evaluate_v1_policy`: accepts exactly the v1 subset, and the flags say which actions occur. */
  method EvaluateV1(bucket: string, d: Document) returns (r: Result<Effects, PolicyError>)
    ensures r.Ok? <==> V1Document(bucket, d)
    ensures r == Err(BadVersion) <==> d.version !in {"", "2012-10-17"}
    ensures r.Ok? ==> (r.value.publicRead <==> Mentions(d, |d.statements|, "s3:GetObject"))
    ensures r.Ok? ==> (r.value.publicList <==> Mentions(d, |d.statements|, "s3:ListBucket"))
  {
    hide V1Action, EqIgnoreCase, IsWildcard, HasAction;
    if !VersionOk(d) {
      return Err(BadVersion);
    }
    var effects := Effects(false, false);
    for i := 0 to |d.statements|
      invariant forall j :: 0 <= j < i ==> V1Statement(bucket, d.statements[j])
      invariant effects.publicRead <==> Mentions(d, i, "s3:GetObject")
      invariant effects.publicList <==> Mentions(d, i, "s3:ListBucket")
    {
      var s := d.statements[i];
      if s.condition.Some? || !EqIgnoreCase(s.effect, "Allow") || !IsWildcard(s.principal) {
        assert !V1Statement(bucket, s);
        return Err(Unsupported);
      }
      var applied := ApplyActions(bucket, s, effects);
      if applied.Err? {
        assert !V1Statement(bucket, s);
        return Err(applied.error);
      }
      effects := applied.value;
    }
    return Ok(effects);
  }

  // ---------------------------------------------------------------- agreement of the two evaluators

  lemma NormalizeFixed()
    ensures Normalize("s3:GetObject") == "s3:GetObject" && Normalize("s3:ListBucket") == "s3:ListBucket"
  {
    var get, list := "s3:GetObject", "s3:ListBucket";
    assert FindColon(get, 2) == 2;
    assert FindColon(get, 1) == 2;
    assert FindColon(get, 0) == 2;
    assert FindColon(list, 2) == 2;
    assert FindColon(list, 1) == 2;
    assert FindColon(list, 0) == 2;
    assert get[..2] == "s3" && list[..2] == "s3";
    assert "s3:" + get[3..] == get && "s3:" + list[3..] == list;
  }

  /** In a v1 document no statement denies, and an action other than the two is never granted. */
  lemma V1NeverDenies(bucket: string, d: Document, req: Request, ctx: Context)
    requires V1Document(bucket, d)
    ensures EffectsKnown(d, req, ctx, |d.statements|)
    ensures !SomeMatch(d, req, ctx, |d.statements|, "Deny")
  {
    hide StatementMatches, V1Action, IsWildcard;
    forall i | 0 <= i < |d.statements|
      ensures !EqIgnoreCase(d.statements[i].effect, "Deny") && EqIgnoreCase(d.statements[i].effect, "Allow")
    {
      assert V1Statement(bucket, d.statements[i]);
    }
  }

  /** A statement of a v1 document matches a request iff it names the action and its resources match. */
  lemma V1StatementMatches(bucket: string, s: Statement, req: Request, ctx: Context)
    requires V1Statement(bucket, s)
    ensures StatementMatches(s, req, ctx) <==> HasAction(s, Normalize(req.action)) && ResourceMatches(s.resource, req)
  {
    hide Normalize, ResourceMatches, AnyResource, ConditionsMatch;
    forall a | a in List(s.action)
      ensures Normalize(a) != "s3:*"
    {
      assert V1Action(bucket, s.resource, a);
    }
  }

  /** What is not mentioned is not granted, whatever the resource. */
  lemma UnmentionedIsImplicitDeny(bucket: string, d: Document, req: Request, ctx: Context)
    requires V1Document(bucket, d) && !Mentions(d, |d.statements|, Normalize(req.action))
    ensures DecisionOf(d, req, ctx) == ImplicitDeny
  {
    hide Normalize, HasAction, ResourceMatches, V1Statement, StatementMatches;
    V1NeverDenies(bucket, d, req, ctx);
    forall i | 0 <= i < |d.statements|
      ensures !StatementMatches(d.statements[i], req, ctx)
    {
      V1StatementMatches(bucket, d.statements[i], req, ctx);
    }
  }

  /** What is mentioned is granted as soon as the resource test of every such statement succeeds. */
  lemma MentionedIsAllowed(bucket: string, d: Document, req: Request, ctx: Context)
    requires V1Document(bucket, d) && Mentions(d, |d.statements|, Normalize(req.action))
    requires forall i :: 0 <= i < |d.statements| && HasAction(d.statements[i], Normalize(req.action)) ==>
               ResourceMatches(d.statements[i].resource, req)
    ensures DecisionOf(d, req, ctx) == Allow
  {
    hide Normalize, HasAction, ResourceMatches, StatementMatches, V1Action, IsWildcard;
    V1NeverDenies(bucket, d, req, ctx);
    var i :| 0 <= i < |d.statements| && HasAction(d.statements[i], Normalize(req.action));
    V1StatementMatches(bucket, d.statements[i], req, ctx);
    assert V1Statement(bucket, d.statements[i]);
  }

  /** ListBucket: the bucket ARN itself, or `*`, always matches the bucket. */
  lemma ListAgrees(bucket: string, d: Document, key: Option<string>, prefix: Option<string>, ctx: Context)
    requires V1Document(bucket, d)
    ensures DecisionOf(d, Request("s3:ListBucket", bucket, key, prefix), ctx)
            == if Mentions(d, |d.statements|, "s3:ListBucket") then Allow else ImplicitDeny
  {
    var req := Request("s3:ListBucket", bucket, key, prefix);
    NormalizeFixed();
    hide Normalize, BucketArn, ObjectArn, GlobMatches, IsWildcard, EqIgnoreCase;
    if Mentions(d, |d.statements|, "s3:ListBucket") {
      forall i | 0 <= i < |d.statements| && HasAction(d.statements[i], "s3:ListBucket")
        ensures ResourceMatches(d.statements[i].resource, req)
      {
        var s := d.statements[i];
        var a :| a in List(s.action) && Normalize(a) == "s3:ListBucket";
        assert V1Statement(bucket, s) && V1Action(bucket, s.resource, a);
        var r :| r in List(s.resource) && (r == BucketArn(bucket) || r == "*");
        assert ResourcePatternMatches(r, BucketArn(bucket), BucketArn(bucket));
      }
      MentionedIsAllowed(bucket, d, req, ctx);
    } else {
      UnmentionedIsImplicitDeny(bucket, d, req, ctx);
    }
  }

  /** Keys on which the literal-first matcher cannot be led astray by the trailing `*` of the object ARN. */
  predicate PlainKey(key: string) {
    key == "" || key[0] != '*' || key == "*"
  }

  /** The object ARN pattern `.../<bucket>/` followed by a star, against the ARN of one key. */
  lemma ObjectPatternMatchesIff(bucket: string, key: string)
    ensures ResourcePatternMatches(ObjectArn(bucket, None), ObjectArn(bucket, Some(key)), BucketArn(bucket)) <==> PlainKey(key)
  {
    var prefix := BucketArn(bucket) + "/";
    var p, v := prefix + "*", prefix + key;
    var n := |prefix|;
    assert p == ObjectArn(bucket, None) && v == ObjectArn(bucket, Some(key));
    assert |p| > 1 && p[n] == '*' && '*' in p;
    WalksAlong(p, v, 0, n);
    if key == "*" {
      assert p == v;
    } else {
      assert v[n..] == key && p[n..] == "*";
      if key != "" && key[0] != '*' {
        assert v[n] == key[0];
        FinalStarSwallows(p, v, n);
      } else if key != "" {
        assert v[n] == '*' && |v| > n + 1;
        assert Run(p, v, n, n, NoStar) == Run(p, v, n + 1, n + 1, NoStar) == false;
      }
    }
  }

  /** GetObject: agreement on every key that does not start with a star (or is one). */
  lemma GetAgrees(bucket: string, d: Document, key: string, prefix: Option<string>, ctx: Context)
    requires V1Document(bucket, d)
    ensures !Mentions(d, |d.statements|, "s3:GetObject") ==>
              DecisionOf(d, Request("s3:GetObject", bucket, Some(key), prefix), ctx) == ImplicitDeny
    ensures Mentions(d, |d.statements|, "s3:GetObject") && PlainKey(key) ==>
              DecisionOf(d, Request("s3:GetObject", bucket, Some(key), prefix), ctx) == Allow
  {
    var req := Request("s3:GetObject", bucket, Some(key), prefix);
    NormalizeFixed();
    ObjectPatternMatchesIff(bucket, key);
    hide Normalize, BucketArn, ObjectArn, GlobMatches, IsWildcard, EqIgnoreCase, PlainKey;
    if !Mentions(d, |d.statements|, "s3:GetObject") {
      UnmentionedIsImplicitDeny(bucket, d, req, ctx);
    } else if PlainKey(key) {
      forall i | 0 <= i < |d.statements| && HasAction(d.statements[i], "s3:GetObject")
        ensures ResourceMatches(d.statements[i].resource, req)
      {
        var s := d.statements[i];
        var a :| a in List(s.action) && Normalize(a) == "s3:GetObject";
        assert V1Statement(bucket, s) && V1Action(bucket, s.resource, a);
        var r :| r in List(s.resource) && (r == ObjectArn(bucket, None) || r == "*");
        assert ResourcePatternMatches(r, ObjectArn(bucket, Some(key)), BucketArn(bucket));
      }
      MentionedIsAllowed(bucket, d, req, ctx);
    }
  }

  /** The plain public-read document for one bucket. */
  function PublicRead(bucket: string): Document {
    Document("2012-10-17", [Statement("Allow", JString("*"), One("s3:GetObject"), One(ObjectArn(bucket, None)), None)])
  }

  lemma PublicReadIsV1(bucket: string)
    ensures V1Document(bucket, PublicRead(bucket)) && V1Statement(bucket, PublicRead(bucket).statements[0])
    ensures Mentions(PublicRead(bucket), 1, "s3:GetObject")
  {
    var s := PublicRead(bucket).statements[0];
    NormalizeFixed();
    hide Normalize, ObjectArn, BucketArn;
    assert List(s.action) == ["s3:GetObject"] && List(s.resource) == [ObjectArn(bucket, None)];
    assert HasAction(s, "s3:GetObject") by { assert "s3:GetObject" in List(s.action); }
    assert AnyResource(s.resource, ObjectArn(bucket, None)) by { assert ObjectArn(bucket, None) in List(s.resource); }
    assert V1Statement(bucket, s);
  }

  lemma PublicReadOnOddKey(bucket: string, key: string, ctx: Context)
    requires !PlainKey(key)
    ensures V1Document(bucket, PublicRead(bucket)) && Mentions(PublicRead(bucket), 1, "s3:GetObject")
    ensures DecisionOf(PublicRead(bucket), Request("s3:GetObject", bucket, Some(key), None), ctx) == ImplicitDeny
  {
    var d := PublicRead(bucket);
    var s := d.statements[0];
    var req := Request("s3:GetObject", bucket, Some(key), None);
    assert List(s.resource) == [ObjectArn(bucket, None)];
    hide Normalize, BucketArn, ObjectArn, GlobMatches, PlainKey, V1Document, V1Statement, Mentions, StatementMatches;
    PublicReadIsV1(bucket);
    ObjectPatternMatchesIff(bucket, key);
    assert !ResourceMatches(s.resource, req);
    V1StatementMatches(bucket, s, req, ctx);
    V1NeverDenies(bucket, d, req, ctx);
  }

  /**
   The flag `public_read` and the v2 evaluator agree on a key, for every accepted document and every
   caller, if and only if the key does not begin with a star (a lone star excepted).
   */
  lemma PublicReadAgreesIff(bucket: string, key: string, ctx: Context)
    ensures (forall d: Document :: V1Document(bucket, d) ==>
               (Mentions(d, |d.statements|, "s3:GetObject")
                <==> DecisionOf(d, Request("s3:GetObject", bucket, Some(key), None), ctx) == Allow))
            <==> PlainKey(key)
  {
    hide V1Document, Mentions, DecisionOf, PlainKey;
    if PlainKey(key) {
      forall d: Document | V1Document(bucket, d)
        ensures Mentions(d, |d.statements|, "s3:GetObject")
                <==> DecisionOf(d, Request("s3:GetObject", bucket, Some(key), None), ctx) == Allow
      {
        GetAgrees(bucket, d, key, None, ctx);
      }
    } else {
      PublicReadOnOddKey(bucket, key, ctx);
      var d := PublicRead(bucket);
      assert |d.statements| == 1;
    }
  }
}
