/** What onboarding bodies, worlds and tags mean, written out on their texts. */
module OnboardingForms {
  import opened Prelude
  import opened ChipStore
  import opened Onboarding

  // ---------------------------------------------------------------- bodies

  ghost predicate Says(b: Body, name: string, value: string) {
    (name, value) in b.fields.Items
  }

  ghost predicate SaysSomething(b: Body, name: string) {
    exists value :: Says(b, name, value) && |value| > 0
  }

  ghost predicate Begins(s: string, prefix: string) {
    exists rest :: s == prefix + rest
  }

  ghost predicate SaysReference(b: Body, name: string, prefix: string) {
    exists value :: Says(b, name, value) && Begins(value, prefix)
  }

  ghost predicate GoodSlug(slug: string) {
    |slug| > 0 && forall i :: 0 <= i < |slug| ==> slug[i] != '/' && slug[i] != ' '
  }

  /** The body asks for this, and carries every field that asking for it needs. */
  ghost predicate Requests(b: Body, req: Request) {
    match req
    case App(slug) =>
      && Says(b, "@type", "ubl/app") && Says(b, "slug", slug) && GoodSlug(slug)
      && SaysSomething(b, "display_name") && SaysReference(b, "owner_did", "did:")
    case User => Says(b, "@type", "ubl/user") && SaysReference(b, "did", "did:") && SaysSomething(b, "display_name")
    case Tenant(creator) =>
      && Says(b, "@type", "ubl/tenant") && (exists slug :: Says(b, "slug", slug) && GoodSlug(slug))
      && SaysSomething(b, "display_name") && Says(b, "creator_cid", creator) && Begins(creator, "b3:")
    case Membership(user, tenant) =>
      && Says(b, "@type", "ubl/membership") && Says(b, "user_cid", user) && Begins(user, "b3:")
      && Says(b, "tenant_cid", tenant) && Begins(tenant, "b3:") && (Says(b, "role", "admin") || Says(b, "role", "member"))
    case Token(user) =>
      && Says(b, "@type", "ubl/token") && Says(b, "user_cid", user) && Begins(user, "b3:")
      && "expires_at" in b.fields && "kid" in b.fields
    case Revoke(target, actor) =>
      && Says(b, "@type", "ubl/revoke") && Says(b, "target_cid", target) && Begins(target, "b3:")
      && SaysSomething(b, "reason") && Says(b, "actor_cid", actor) && Begins(actor, "b3:")
  }

  lemma BeginsMeans(s: string, prefix: string)
    ensures Begins(s, prefix) <==> |prefix| <= |s| && s[..|prefix|] == prefix
  {
    if |prefix| <= |s| && s[..|prefix|] == prefix { assert s == prefix + s[|prefix|..]; }
  }

  lemma FieldsMean(b: Body, name: string, prefix: string)
    ensures Filled(b.fields, name) <==> SaysSomething(b, name)
    ensures Prefixed(b.fields, name, prefix) <==> SaysReference(b, name, prefix)
    ensures Prefixed(b.fields, name, prefix) <==> name in b.fields && Begins(b.fields[name], prefix)
  {
    hide Begins;
    if name in b.fields {
      BeginsMeans(b.fields[name], prefix);
      assert Says(b, name, b.fields[name]);
    }
  }

  lemma SlugMeans(b: Body)
    ensures SlugOk(b.fields) <==> exists slug :: Says(b, "slug", slug) && GoodSlug(slug)
    ensures "slug" in b.fields ==> (SlugOk(b.fields) <==> GoodSlug(b.fields["slug"]))
  {
    if "slug" in b.fields { assert Says(b, "slug", b.fields["slug"]); }
  }

  const ONBOARDING: set<string> := {"ubl/app", "ubl/user", "ubl/tenant", "ubl/membership", "ubl/token", "ubl/revoke"}

  lemma ParsesAsAsked(b: Body, req: Request)
    ensures ParseBody(b) == Parsed(req) <==> Requests(b, req)
  {
    hide Filled, Prefixed, SlugOk, SaysSomething, SaysReference, Begins, GoodSlug;
    match req
    case App(_) =>
      FieldsMean(b, "display_name", "");
      FieldsMean(b, "owner_did", "did:");
      SlugMeans(b);
    case User =>
      FieldsMean(b, "display_name", "");
      FieldsMean(b, "did", "did:");
    case Tenant(_) =>
      FieldsMean(b, "display_name", "");
      FieldsMean(b, "creator_cid", "b3:");
      SlugMeans(b);
    case Membership(_, _) =>
      FieldsMean(b, "user_cid", "b3:");
      FieldsMean(b, "tenant_cid", "b3:");
    case Token(_) => FieldsMean(b, "user_cid", "b3:");
    case Revoke(_, _) =>
      FieldsMean(b, "target_cid", "b3:");
      FieldsMean(b, "actor_cid", "b3:");
      FieldsMean(b, "reason", "");
  }

  lemma OtherKindsPass(b: Body)
    ensures ParseBody(b) == NotOnboarding <==> "@type" in b.fields && b.fields["@type"] !in ONBOARDING
  {
    hide Filled, Prefixed, SlugOk;
  }

  /** A body is parsed as a request exactly when it asks for it; other kinds have no rules, and all else is malformed. */
  lemma ParsesExactly(b: Body)
    ensures forall req :: ParseBody(b) == Parsed(req) <==> Requests(b, req)
    ensures ParseBody(b) == NotOnboarding <==> "@type" in b.fields && b.fields["@type"] !in ONBOARDING
    ensures ParseBody(b) == Malformed <==> ("@type" in b.fields ==> b.fields["@type"] in ONBOARDING) && forall req :: !Requests(b, req)
  {
    hide ParseBody, Requests;
    forall req ensures ParseBody(b) == Parsed(req) <==> Requests(b, req) { ParsesAsAsked(b, req); }
    OtherKindsPass(b);
    if ParseBody(b).Parsed? { assert Requests(b, ParseBody(b).req); }
  }

  // ---------------------------------------------------------------- worlds

  lemma {:induction false} SplitPlain(p: string)
    requires '/' !in p
    ensures Split(p) == [p]
  {
    if p != "" {
      SplitPlain(p[1..]);
      assert p == [p[0]] + p[1..];
    }
  }

  lemma {:induction false} SplitFirst(p: string, rest: string)
    requires '/' !in p
    ensures Split(p + ("/" + rest)) == [p] + Split(rest)
  {
    var s := p + ("/" + rest);
    if p == "" {
      assert s == "/" + rest && s[1..] == rest;
    } else {
      assert s[1..] == p[1..] + ("/" + rest);
      SplitFirst(p[1..], rest);
      assert p == [p[0]] + p[1..];
    }
  }

  /** The first part of a text, and what is behind its slash, if there is one. */
  lemma {:induction false} SplitBack(s: string) returns (rest: string)
    ensures '/' !in Split(s)[0]
    ensures |Split(s)| == 1 ==> s == Split(s)[0]
    ensures |Split(s)| > 1 ==> s == Split(s)[0] + ("/" + rest) && Split(rest) == Split(s)[1..]
  {
    rest := "";
    if s != "" {
      assert s == [s[0]] + s[1..];
      if s[0] == '/' {
        rest := s[1..];
        assert s == "" + ("/" + rest);
      } else {
        rest := SplitBack(s[1..]);
        assert Split(s)[0] == [s[0]] + Split(s[1..])[0];
      }
    }
  }

  /** A name between slashes. */
  ghost predicate PlainName(s: string) {
    s != "" && '/' !in s
  }

  /** The world of an app, or of a tenant of it, whatever comes behind the tenant. */
  ghost predicate WorldOf(world: string, app: string) {
    && PlainName(app)
    && (|| world == "a/" + app
        || exists tenant, more :: InTenant(world, app, tenant, more))
  }

  ghost predicate InTenant(world: string, app: string, tenant: string, more: string) {
    world == "a" + ("/" + (app + ("/" + ("t" + ("/" + (tenant + more)))))) && PlainName(tenant) && (more == "" || more[0] == '/')
  }

  lemma SplitTenant(world: string, app: string, tenant: string, more: string)
    requires PlainName(app) && InTenant(world, app, tenant, more)
    ensures var parts := Split(world);
            |parts| >= 4 && parts[0] == "a" && parts[1] == app && parts[2] == "t" && parts[3] == tenant
  {
    hide Split;
    var last := tenant + more;
    SplitFirst("a", app + ("/" + ("t" + ("/" + last))));
    SplitFirst(app, "t" + ("/" + last));
    SplitFirst("t", last);
    if more == "" {
      assert last == tenant;
      SplitPlain(tenant);
    } else {
      assert last == tenant + ("/" + more[1..]);
      SplitFirst(tenant, more[1..]);
    }
  }

  /** The app of a world is read exactly off the two legal forms. */
  lemma AppOfExactly(world: string, app: string)
    ensures AppOf(world) == Some(app) <==> WorldOf(world, app)
  {
    hide Split;
    if WorldOf(world, app) {
      if world == "a/" + app {
        assert world == "a" + ("/" + app);
        SplitFirst("a", app);
        SplitPlain(app);
      } else {
        var tenant, more :| InTenant(world, app, tenant, more);
        SplitTenant(world, app, tenant, more);
      }
    }
    if AppOf(world) == Some(app) { ReadApp(world, app); }
  }

  lemma ReadApp(world: string, app: string)
    requires AppOf(world) == Some(app)
    ensures WorldOf(world, app)
  {
    hide Split;
    var behindA := SplitBack(world);
    var behindApp := SplitBack(behindA);
    assert Split(world)[1] == Split(behindA)[0] == app;
    if |Split(world)| == 2 {
      assert world == "a/" + app;
    } else {
      var behindT := SplitBack(behindApp);
      assert Split(world)[2] == Split(behindApp)[0] && Split(world)[3] == Split(behindT)[0];
      var behindTenant := SplitBack(behindT);
      var tenant := Split(behindT)[0];
      var more := if |Split(behindT)| == 1 then "" else "/" + behindTenant;
      assert behindT == tenant + more;
      assert behindApp == "t" + ("/" + (tenant + more));
      assert behindA == app + ("/" + behindApp);
      assert InTenant(world, app, tenant, more);
    }
  }

  // ---------------------------------------------------------------- tags

  /** The text names an app: "a", a slash, its name, and nothing or another slash. */
  ghost predicate NamesApp(world: string, app: string) {
    PlainName(app) && exists more :: world == "a/" + (app + more) && (more == "" || more[0] == '/')
  }

  /** The text has exactly four parts, the third "t", and names the last. */
  ghost predicate NamesTenant(world: string, tenant: string) {
    PlainName(tenant) && exists p, q :: '/' !in p && '/' !in q && world == p + ("/" + (q + ("/" + ("t" + ("/" + tenant)))))
  }

  lemma AppPart(world: string, app: string)
    ensures var parts := Split(world); |parts| >= 2 && parts[0] == "a" && parts[1] == app && app != "" <==> NamesApp(world, app)
  {
    hide Split;
    if NamesApp(world, app) {
      var more :| world == "a/" + (app + more) && (more == "" || more[0] == '/');
      assert world == "a" + ("/" + (app + more));
      SplitFirst("a", app + more);
      if more == "" {
        assert app + more == app;
        SplitPlain(app);
      } else {
        assert app + more == app + ("/" + more[1..]);
        SplitFirst(app, more[1..]);
      }
    }
    var parts := Split(world);
    if |parts| >= 2 && parts[0] == "a" && parts[1] == app && app != "" {
      var behindA := SplitBack(world);
      var behindApp := SplitBack(behindA);
      var more := if |Split(behindA)| == 1 then "" else "/" + behindApp;
      assert behindA == app + more && world == "a/" + (app + more);
    }
  }

  lemma TenantPart(world: string, tenant: string)
    ensures var parts := Split(world); |parts| == 4 && parts[2] == "t" && parts[3] == tenant && tenant != "" <==> NamesTenant(world, tenant)
  {
    hide Split;
    if NamesTenant(world, tenant) {
      var p, q :| '/' !in p && '/' !in q && world == p + ("/" + (q + ("/" + ("t" + ("/" + tenant)))));
      SplitFirst(p, q + ("/" + ("t" + ("/" + tenant))));
      SplitFirst(q, "t" + ("/" + tenant));
      SplitFirst("t", tenant);
      SplitPlain(tenant);
    }
    var parts := Split(world);
    if |parts| == 4 && parts[2] == "t" && parts[3] == tenant && tenant != "" {
      var one := SplitBack(world);
      var two := SplitBack(one);
      var three := SplitBack(two);
      assert parts[1] == Split(one)[0] && parts[2] == Split(two)[0] && parts[3] == Split(three)[0];
      var _ := SplitBack(three);
      assert world == parts[0] + ("/" + (parts[1] + ("/" + ("t" + ("/" + tenant)))));
    }
  }

  /** A tag of one list or another, by its name. */
  lemma TagIn(f: string, v: string, g: string, w: string)
    requires Plain(f) && Plain(g)
    ensures FieldTag(f, v) in [FieldTag(g, w)] <==> f == g && v == w
  {
    hide FieldTag;
    if FieldTag(f, v) == FieldTag(g, w) { FieldTagInjective(f, v, g, w); }
  }

  lemma WorldTagsMean(fields: map<string, string>, f: string, v: string)
    requires Plain(f)
    ensures FieldTag(f, v) in WorldTags(fields)
       <==> && "@world" in fields
            && (|| (f == "world" && v == fields["@world"])
                || (f == "app" && NamesApp(fields["@world"], v))
                || (f == "tenant" && NamesTenant(fields["@world"], v)))
  {
    hide FieldTag, Split, NamesApp, NamesTenant;
    if "@world" in fields {
      var world := fields["@world"];
      var parts := Split(world);
      TagIn(f, v, "world", world);
      AppPart(world, v);
      TenantPart(world, v);
      if |parts| >= 2 { TagIn(f, v, "app", parts[1]); }
      if |parts| >= 4 { TagIn(f, v, "tenant", parts[3]); }
    }
  }

  /** What a tag of a stored chip says of its body: every kind of tag, and no other. */
  ghost predicate Tagged(o: Outside, b: Body, f: string, v: string) {
    || (f == "type" && (Says(b, "@type", v) || ("@type" !in b.fields && v == "unknown")))
    || (f in DIRECT && Says(b, f, v))
    || (f == "id" && Says(b, "@id", v))
    || (f == "world" && Says(b, "@world", v))
    || (f == "app" && "@world" in b.fields && NamesApp(b.fields["@world"], v))
    || (f == "tenant" && "@world" in b.fields && NamesTenant(b.fields["@world"], v))
    || (f == "date" && "date" in b.fields && o.day(b.fields["date"]) == Some(v))
  }

  lemma TagsMean(o: Outside, b: Body, f: string, v: string)
    requires Plain(f)
    ensures FieldTag(f, v) in TagsOf(o, b) <==> Tagged(o, b, f, v)
  {
    hide FieldTag, DirectTags, WorldTags, DIRECT, NamesApp, NamesTenant, Plain;
    DirectNamesArePlain();
    DirectTagsDecode(b.fields, DIRECT, f, v);
    WorldTagsMean(b.fields, f, v);
    NamesArePlain();
    TagIn(f, v, "type", KindOf(b));
    if "@id" in b.fields { TagIn(f, v, "id", b.fields["@id"]); }
    if "date" in b.fields && o.day(b.fields["date"]).Some? { TagIn(f, v, "date", o.day(b.fields["date"]).value); }
  }

  lemma NamesArePlain()
    ensures Plain("type") && Plain("id") && Plain("world") && Plain("app") && Plain("tenant") && Plain("date")
  {
  }

  /** The query for the users of an app asks for exactly the stored users whose world names the app. */
  lemma UsersAskedFor(o: Outside, chips: map<Cid, Chip>, app: string, x: Chip)
    requires WellStored(o, chips)
    ensures x in FullScan(chips, UserQuery(app))
       <==> && x.cid in chips && chips[x.cid] == x
            && x.kind == "ubl/user" && "@world" in x.fields && NamesApp(x.fields["@world"], app)
  {
    hide FieldTag, TagsOf, DIRECT, NamesApp;
    if x.cid in chips && chips[x.cid] == x {
      NamesArePlain();
      TagsMean(o, Body(x.fields, x.rest), "app", app);
      assert "app" !in DIRECT by { AppIsNotDirect(); }
      assert UserQuery(app).tags[0] == FieldTag("app", app);
    }
  }

  lemma AppIsNotDirect()
    ensures "app" !in DIRECT
  {
  }
}
