/**
 * The message lookup function that `Lezer::compileFunction` emits and
 * `Lezer::l` calls: a key that is not a defined constant comes back as it is;
 * a defined key with no arguments gives its template verbatim; otherwise the
 * arguments are substituted into the template by `vsprintf`.
 *
 * The compiled constants are a map from key to template. `vsprintf` is
 * modelled for the `%s` and `%%` conversions only.
 */
module Lookup {
  import opened Wrappers

  /** The constants of the compiled catalog class: key to template. */
  type Catalog = map<string, string>

  /** Why `vsprintf` fails: an argument is missing, or the template uses a conversion outside the model. */
  datatype FormatError = TooFewArguments | Unmodelled

  function Prepend(p: string, r: Result<string, FormatError>): Result<string, FormatError>
  {
    match r
    case Ok(v) => Ok(p + v)
    case Err(e) => Err(e)
  }

  lemma PrependTwice(a: string, b: string, r: Result<string, FormatError>)
    ensures Prepend(a, Prepend(b, r)) == Prepend(a + b, r)
  {
    if r.Ok? {
      assert a + (b + r.value) == (a + b) + r.value;
    }
  }

  /**
   * `vsprintf(t, args)`, read left to right: `%s` takes the next argument,
   * `%%` writes one percent sign, other characters are copied. Arguments left
   * over are ignored.
   */
  function Format(t: string, args: seq<string>): Result<string, FormatError>
    decreases |t|
  {
    if t == [] then Ok("")
    else if t[0] != '%' then Prepend([t[0]], Format(t[1..], args))
    else if |t| == 1 then Err(Unmodelled)
    else if t[1] == '%' then Prepend("%", Format(t[2..], args))
    else if t[1] == 's' then
      if args == [] then Err(TooFewArguments) else Prepend(args[0], Format(t[2..], args[1..]))
    else Err(Unmodelled)
  }

  /** The number of `%s` placeholders in `t`, `%%` being an escaped percent sign. */
  function Holes(t: string): nat
    decreases |t|
  {
    if t == [] then 0
    else if t[0] != '%' then Holes(t[1..])
    else if |t| == 1 then 0
    else if t[1] == 's' then 1 + Holes(t[2..])
    else Holes(t[2..])
  }

  /** Every `%` in `t` begins a `%s` or a `%%`. */
  predicate Modelled(t: string)
    decreases |t|
  {
    if t == [] then true
    else if t[0] != '%' then Modelled(t[1..])
    else |t| >= 2 && (t[1] == '%' || t[1] == 's') && Modelled(t[2..])
  }

  /** Substitution succeeds exactly when the template is in the modelled grammar and there are enough arguments. */
  lemma {:induction false} FormatSucceeds(t: string, args: seq<string>)
    ensures Format(t, args).Ok? <==> Modelled(t) && Holes(t) <= |args|
    decreases |t|
  {
    if t == [] {
    } else if t[0] != '%' {
      FormatSucceeds(t[1..], args);
    } else if |t| == 1 {
    } else if t[1] == '%' {
      FormatSucceeds(t[2..], args);
    } else if t[1] == 's' {
      if args != [] {
        FormatSucceeds(t[2..], args[1..]);
      }
    }
  }

  /** A template without a percent sign is its own result, whatever the arguments. */
  lemma {:induction false} FormatPlain(t: string, args: seq<string>)
    requires '%' !in t
    ensures Format(t, args) == Ok(t)
    decreases |t|
  {
    if t != [] {
      FormatPlain(t[1..], args);
      assert [t[0]] + t[1..] == t;
    }
  }

  /**
   * Placeholders are filled from left to right: the part of the template
   * after `t1` is filled from the arguments that `t1` did not consume.
   */
  lemma {:induction false} FormatAppend(t1: string, t2: string, args: seq<string>)
    requires Format(t1, args).Ok?
    ensures Holes(t1) <= |args|
    ensures Format(t1 + t2, args) == Prepend(Format(t1, args).value, Format(t2, args[Holes(t1)..]))
    decreases |t1|
  {
    FormatSucceeds(t1, args);
    var t := t1 + t2;
    if t1 == [] {
      assert t == t2 && args[0..] == args;
      var r := Format(t2, args);
      assert r.Ok? ==> "" + r.value == r.value;
    } else if t1[0] != '%' {
      assert t[1..] == t1[1..] + t2;
      FormatAppend(t1[1..], t2, args);
      PrependTwice([t1[0]], Format(t1[1..], args).value, Format(t2, args[Holes(t1)..]));
    } else if t1[1] == '%' {
      assert t[2..] == t1[2..] + t2;
      FormatAppend(t1[2..], t2, args);
      PrependTwice("%", Format(t1[2..], args).value, Format(t2, args[Holes(t1)..]));
    } else {
      assert t1[1] == 's' && args != [];
      assert t[2..] == t1[2..] + t2;
      FormatAppend(t1[2..], t2, args[1..]);
      assert args[1..][Holes(t1[2..])..] == args[Holes(t1)..];
      PrependTwice(args[0], Format(t1[2..], args[1..]).value, Format(t2, args[Holes(t1)..]));
    }
  }

  /** Arguments beyond those the placeholders consume change nothing. */
  lemma {:induction false} FormatExtraArguments(t: string, args: seq<string>, more: seq<string>)
    requires Format(t, args).Ok?
    ensures Format(t, args + more) == Format(t, args)
    decreases |t|
  {
    if t == [] {
    } else if t[0] != '%' {
      FormatExtraArguments(t[1..], args, more);
    } else if t[1] == '%' {
      FormatExtraArguments(t[2..], args, more);
    } else {
      assert (args + more)[1..] == args[1..] + more;
      FormatExtraArguments(t[2..], args[1..], more);
    }
  }

  lemma {:induction false} HolesPlain(t: string)
    requires '%' !in t
    ensures Holes(t) == 0
    decreases |t|
  {
    if t != [] {
      HolesPlain(t[1..]);
    }
  }

  /** One placeholder between two plain texts receives the first argument. */
  lemma FormatOneHole(pre: string, post: string, arg: string, rest: seq<string>)
    requires '%' !in pre && '%' !in post
    ensures Format(pre + "%s" + post, [arg] + rest) == Ok(pre + arg + post)
  {
    var args := [arg] + rest;
    var tail := "%s" + post;
    FormatPlain(pre, args);
    HolesPlain(pre);
    FormatAppend(pre, tail, args);
    assert pre + "%s" + post == pre + tail;
    assert tail[0] == '%' && tail[1] == 's' && tail[2..] == post;
    FormatPlain(post, rest);
    assert args[1..] == rest;
    assert Format(tail, args) == Prepend(arg, Format(post, rest));
    assert pre + (arg + post) == pre + arg + post;
  }

  /**
   * The generated function: an undefined key is returned unchanged, a defined
   * key with an empty argument list gives its template verbatim, and
   * otherwise the template goes through `vsprintf`.
   */
  function Lookup(catalog: Catalog, key: string, args: seq<string>): Result<string, FormatError>
  {
    if key !in catalog then Ok(key)
    else if args == [] then Ok(catalog[key])
    else Format(catalog[key], args)
  }

  /** `l(key)` with the default empty context, which can never fail. */
  function Translate(catalog: Catalog, key: string): (r: string)
    ensures Lookup(catalog, key, []) == Ok(r)
    ensures key !in catalog ==> r == key
  {
    if key in catalog then catalog[key] else key
  }

  /** An undefined key comes back unchanged whatever the arguments, even too few or malformed ones. */
  lemma UndefinedKey(catalog: Catalog, key: string, args: seq<string>)
    requires key !in catalog
    ensures Lookup(catalog, key, args) == Ok(key)
  {
  }

  /** With no arguments a defined template is returned verbatim, placeholders included. */
  lemma EmptyArgumentsVerbatim(catalog: Catalog, key: string)
    requires key in catalog
    ensures Lookup(catalog, key, []) == Ok(catalog[key])
  {
  }

  /** A lookup fails exactly when a defined template with arguments cannot be filled by them. */
  lemma LookupSucceeds(catalog: Catalog, key: string, args: seq<string>)
    ensures Lookup(catalog, key, args).Ok? <==>
      key !in catalog || args == [] || (Modelled(catalog[key]) && Holes(catalog[key]) <= |args|)
  {
    if key in catalog && args != [] {
      FormatSucceeds(catalog[key], args);
    }
  }

  /** The worked example: `GREETING` is `Hello, %s!`; the context holds one name. */
  lemma GreetingExample(name: string)
    ensures Lookup(map["GREETING" := "Hello, %s!"], "GREETING", [name]) == Ok("Hello, " + name + "!")
  {
    FormatOneHole("Hello, ", "!", name, []);
    assert "Hello, " + "%s" + "!" == "Hello, %s!";
    assert [name] + [] == [name];
  }

}
