/** The lazy object cache of src/Caller.php: class names are built from a
    namespace and a method name, objects are created once per class name and
    cached, and a call is forwarded to the cached object. The file-system
    check and the dynamic `new` are given as a set of existing files and an
    abstract factory (`new Component(className)`); `is_a` is an abstract
    relation between class names. */
module Caller {
  import opened Wrappers
  import opened Strings
  import opened Logging

  /** `DIRECTORY_SEPARATOR` on the systems the bot runs on. */
  const Separator: char := '/'

  /** An object made by the factory, remembering the class name it was made for. */
  class Component {
    const className: string

    constructor (className: string)
      ensures this.className == className
    {
      this.className := className;
    }
  }

  /** `call_user_func_array([$object, $methodName], $arguments)`, as a record. */
  datatype Invocation = Invocation(target: Component, methodName: string, arguments: seq<string>)

  /** `$namespace . ucfirst($methodName)`. */
  function ClassName(namespace: string, methodName: string): string {
    namespace + Ucfirst(methodName)
  }

  /** The class name starts with the namespace and continues with the method
      name, whose first letter is upper-cased. */
  lemma ClassNameParts(namespace: string, methodName: string)
    ensures var c := ClassName(namespace, methodName);
      && |c| == |namespace| + |methodName|
      && c[..|namespace|] == namespace
      && (methodName != [] ==> !('a' <= c[|namespace|] <= 'z') && c[|namespace| + 1..] == methodName[1..])
  {
    var c := ClassName(namespace, methodName);
    if methodName != [] {
      assert c[|namespace|..] == Ucfirst(methodName);
      assert c[|namespace| + 1..] == Ucfirst(methodName)[1..];
    }
  }

  /** The class name below the project root: `Cerberus` becomes `src` and
      every backslash a directory separator. */
  function RelativeClassPath(className: string): string {
    Replace(Replace(className, "Cerberus", "src"), "\\", [Separator])
  }

  /** The file a class is loaded from. */
  function ClassFile(systemPath: string, className: string): string {
    systemPath + [Separator] + RelativeClassPath(className) + ".php"
  }

  /** The path below the system path holds no backslash any more. */
  lemma RelativeClassPathHasNoBackslash(className: string)
    ensures '\\' !in RelativeClassPath(className)
  {
    ReplaceCharRemoves(Replace(className, "Cerberus", "src"), '\\', [Separator]);
  }

  /** A class name without `Cerberus` and without backslashes is its own relative path. */
  lemma PlainClassPath(className: string)
    requires !Occurs(className, "Cerberus") && '\\' !in className
    ensures RelativeClassPath(className) == className
  {
    ReplaceAbsent(className, "Cerberus", "src");
    MissingCharNoOccurrence(className, "\\", '\\');
    ReplaceAbsent(className, "\\", [Separator]);
  }

  class Caller {
    /** The cache, keyed by class name (the source keys it by the name's md5 digest). */
    var classes: map<string, Component>
    const systemPath: string
    /** The files that exist. */
    const files: set<string>
    /** `is_a` on the class an object was made for and a class name. */
    const isA: (string, string) -> bool

    constructor (systemPath: string, files: set<string>, isA: (string, string) -> bool)
      ensures classes == map[] && this.systemPath == systemPath && this.files == files && this.isA == isA
    {
      classes := map[];
      this.systemPath := systemPath;
      this.files := files;
      this.isA := isA;
    }

    /** `createObject`: fails when the class file is missing, otherwise makes a new object. */
    method CreateObject(className: string) returns (r: Result<Component, Failure>)
      ensures ClassFile(systemPath, className) !in files ==> r == Err(FileNotFound(ClassFile(systemPath, className)))
      ensures ClassFile(systemPath, className) in files ==> r.Ok? && fresh(r.value) && r.value.className == className
    {
      var classFile := systemPath + [Separator] + RelativeClassPath(className) + ".php";
      if classFile !in files {
        return Err(FileNotFound(classFile));
      }
      var c := new Component(className);
      return Ok(c);
    }

    /** `getObject`: the cached object, or a new one that is then cached; a
        failed creation caches nothing. */
    method GetObject(className: string) returns (r: Result<Component, Failure>)
      modifies this
      ensures className in old(classes) ==> r == Ok(old(classes)[className]) && classes == old(classes)
      ensures className !in old(classes) && ClassFile(systemPath, className) !in files ==>
        r == Err(FileNotFound(ClassFile(systemPath, className))) && classes == old(classes)
      ensures className !in old(classes) && ClassFile(systemPath, className) in files ==>
        r.Ok? && fresh(r.value) && r.value.className == className && classes == old(classes)[className := r.value]
      ensures r.Ok? ==> className in classes && classes[className] == r.value
    {
      if className !in classes {
        var created := CreateObject(className);
        if created.Err? {
          return created;
        }
        classes := classes[className := created.value];
      }
      return Ok(classes[className]);
    }

    /** `call`: builds the class name, fetches the object and forwards the
        call only when `is_a` says the object is NOT of that class. */
    method Call(namespace: string, methodName: string, arguments: seq<string>) returns (r: Result<Option<Invocation>, Failure>)
      modifies this
      ensures var c := ClassName(namespace, methodName);
        && (c in old(classes) ==>
              classes == old(classes)
              && r == Ok(if isA(old(classes)[c].className, c) then None
                         else Some(Invocation(old(classes)[c], methodName, arguments))))
        && (c !in old(classes) && ClassFile(systemPath, c) !in files ==>
              classes == old(classes) && r == Err(FileNotFound(ClassFile(systemPath, c))))
        && (c !in old(classes) && ClassFile(systemPath, c) in files ==>
              c in classes && fresh(classes[c]) && classes == old(classes)[c := classes[c]]
              && r == Ok(if isA(c, c) then None else Some(Invocation(classes[c], methodName, arguments))))
    {
      var className := namespace + Ucfirst(methodName);
      var obj :- GetObject(className);
      if !isA(obj.className, className) {
        return Ok(Some(Invocation(obj, methodName, arguments)));
      }
      return Ok(None);
    }
  }
}
