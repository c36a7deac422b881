/** The command-line news manager (news-manager.js): the list of news items kept in `news.json`,
    the operations that add to it, remove from it and mark it read, the preview `list` prints, and
    the dispatch on the command word. The JSON file is modelled by what reading and parsing it
    yields. */
module NewsManager {
  import opened Wrappers
  import opened JsText

  /** One entry of the `news` array. */
  datatype NewsItem = NewsItem(id: string, title: string, content: string, category: string,
                               date: string, source: string, isNew: bool)

  /** What reading `news.json` (or the example file) and parsing it yields: no file, a file that
      cannot be read or does not parse, or the stored list. */
  datatype NewsFile = Missing | Garbled | Stored(news: seq<NewsItem>)

  const DefaultCategory := "general"
  const TeamSource := "Egyptian Exchange Team"
  const PreviewLength := 100

  /** `loadNews`: the stored list, or the empty list when the file cannot be read or parsed. */
  function LoadNews(file: NewsFile): (r: seq<NewsItem>)
    ensures !file.Stored? ==> r == []
  {
    if file.Stored? then file.news else []
  }

  /** `initNewsFile`: an existing file is kept; a missing one becomes a copy of the example file,
      or an empty list when there is no example either. */
  function Initialized(file: NewsFile, example: NewsFile): (r: NewsFile)
    ensures !r.Missing?
    ensures !file.Missing? ==> r == file
    ensures file.Missing? && !example.Missing? ==> r == example
    ensures file.Missing? && example.Missing? ==> LoadNews(r) == []
  {
    if !file.Missing? then file
    else if !example.Missing? then example
    else Stored([])
  }

  /** The item `addNews` creates from its arguments, the generated id and the current time. */
  function NewItem(id: string, date: string, title: string, content: string, category: Option<string>): (r: NewsItem)
    ensures r.id == id && r.title == title && r.content == content && r.date == date
    ensures r.category == ToLowerCase(category.GetOr(DefaultCategory))
    ensures r.source == TeamSource && r.isNew
    ensures forall i :: 0 <= i < |r.category| ==> !('A' <= r.category[i] <= 'Z')
  {
    NewsItem(id, title, content, ToLowerCase(category.GetOr(DefaultCategory)), date, TeamSource, true)
  }

  /** The list without the items whose id is `id` (the `filter` of `removeNews`). */
  function Without(news: seq<NewsItem>, id: string): (r: seq<NewsItem>)
    ensures |r| <= |news|
    ensures forall i :: 0 <= i < |r| ==> r[i].id != id
  {
    if news == [] then []
    else if news[0].id == id then Without(news[1..], id)
    else [news[0]] + Without(news[1..], id)
  }

  /** Exactly the items with another id survive... */
  lemma {:induction false} WithoutKeepsOthers(news: seq<NewsItem>, id: string)
    ensures forall x :: x in Without(news, id) <==> x in news && x.id != id
  {
    if news != [] {
      WithoutKeepsOthers(news[1..], id);
      assert news == [news[0]] + news[1..];
    }
  }

  /** ...in their original order: filtering a concatenation filters each part. */
  lemma {:induction false} WithoutDistributes(a: seq<NewsItem>, b: seq<NewsItem>, id: string)
    ensures Without(a + b, id) == Without(a, id) + Without(b, id)
  {
    if a != [] {
      assert (a + b)[1..] == a[1..] + b;
      WithoutDistributes(a[1..], b, id);
    } else {
      assert a + b == b;
    }
  }

  /** The list gets shorter exactly when some item has the id; when it keeps its length it is
      the same list. */
  lemma {:induction false} WithoutShrinksIffPresent(news: seq<NewsItem>, id: string)
    ensures |Without(news, id)| < |news| <==> exists i :: 0 <= i < |news| && news[i].id == id
    ensures |Without(news, id)| == |news| ==> Without(news, id) == news
  {
    if news != [] {
      WithoutShrinksIffPresent(news[1..], id);
      if news[0].id != id {
        if exists i :: 0 <= i < |news[1..]| && news[1..][i].id == id {
          var i :| 0 <= i < |news[1..]| && news[1..][i].id == id;
          assert news[i + 1].id == id;
        }
        if exists i :: 0 <= i < |news| && news[i].id == id {
          var i :| 0 <= i < |news| && news[i].id == id;
          assert news[1..][i - 1].id == id;
        }
        if |Without(news, id)| == |news| {
          assert news == [news[0]] + news[1..];
        }
      }
    }
  }

  /** The preview line of `listNews`: the first 100 characters of the content, followed by `...`
      exactly when the content is longer than that. */
  function Preview(content: string): (r: string)
    ensures |content| <= PreviewLength ==> r == content
    ensures |content| > PreviewLength <==> |r| == PreviewLength + 3
    ensures |content| > PreviewLength ==> r[..PreviewLength] == content[..PreviewLength] && r[PreviewLength..] == "..."
  {
    if |content| > PreviewLength then content[..PreviewLength] + "..." else content
  }

  /** What `listNews` prints about one item; the date, formatted by the locale, is left out. */
  datatype Entry = Entry(number: nat, title: string, marked: bool, category: string, id: string, preview: string)

  /** `listNews`: one entry per item, numbered from 1 in list order; nothing when the list is
      empty. */
  function ListNews(news: seq<NewsItem>): (r: seq<Entry>)
    ensures |r| == |news|
    ensures forall i :: 0 <= i < |r| ==>
      && r[i].number == i + 1 && r[i].id == news[i].id && r[i].title == news[i].title
      && r[i].marked == news[i].isNew && r[i].category == news[i].category
      && r[i].preview == Preview(news[i].content)
  {
    seq(|news|, i requires 0 <= i < |news| =>
      Entry(i + 1, news[i].title, news[i].isNew, news[i].category, news[i].id, Preview(news[i].content)))
  }

  // ---------------------------------------------------------------------------------------------
  // The command line

  /** What `main` does for an argument list. */
  datatype Action =
    | ShowHelp
    | AddUsage
    | Add(title: string, content: string, category: string)
    | List
    | RemoveUsage
    | Remove(id: string)
    | ReadAll
    | Unknown(command: string)

  /** The words `main` knows, once lower-cased. */
  predicate IsCommandWord(command: string) {
    command in {"add", "list", "remove", "read", "help", "--help", "-h"}
  }

  /** The dispatch of `main`: no arguments shows the help; otherwise the lower-cased first
      argument selects the command, `add` needing a title and a content and `remove` an id. */
  function Dispatch(args: seq<string>): (r: Action)
    ensures args == [] ==> r == ShowHelp
    ensures args != [] ==> ((r.Add? || r.AddUsage?) <==> ToLowerCase(args[0]) == "add")
    ensures args != [] ==> (r.List? <==> ToLowerCase(args[0]) == "list")
    ensures args != [] ==> ((r.Remove? || r.RemoveUsage?) <==> ToLowerCase(args[0]) == "remove")
    ensures args != [] ==> (r.ReadAll? <==> ToLowerCase(args[0]) == "read")
    ensures args != [] && ToLowerCase(args[0]) == "add" ==> (r.Add? <==> |args| >= 3) && (r.AddUsage? <==> |args| < 3)
    ensures args != [] && ToLowerCase(args[0]) == "remove" ==> (r.Remove? <==> |args| >= 2) && (r.RemoveUsage? <==> |args| < 2)
    ensures r.Add? ==> |args| >= 3 && r.title == args[1] && r.content == args[2]
    ensures r.Add? ==> r.category == (if |args| > 3 && args[3] != "" then args[3] else DefaultCategory)
    ensures r.Remove? ==> |args| >= 2 && r.id == args[1]
    ensures r.Unknown? ==> r.command == ToLowerCase(args[0])
    ensures r.Unknown? <==> args != [] && !IsCommandWord(ToLowerCase(args[0]))
    ensures r.ShowHelp? <==> args == [] || ToLowerCase(args[0]) in {"help", "--help", "-h"}
  {
    if args == [] then ShowHelp
    else
      var command := ToLowerCase(args[0]);
      if command == "add" then
        if |args| < 3 then AddUsage
        else Add(args[1], args[2], if |args| > 3 && args[3] != "" then args[3] else DefaultCategory)
      else if command == "list" then List
      else if command == "remove" then
        if |args| < 2 then RemoveUsage else Remove(args[1])
      else if command == "read" then ReadAll
      else if command == "help" || command == "--help" || command == "-h" then ShowHelp
      else Unknown(command)
  }

  /** The command word is case-insensitive: two argument lists that differ only in the case of
      the command word do the same thing. */
  lemma {:induction false} CommandWordIgnoresCase(a: seq<string>, b: seq<string>)
    requires a != [] && b != [] && ToLowerCase(a[0]) == ToLowerCase(b[0]) && a[1..] == b[1..]
    ensures Dispatch(a) == Dispatch(b)
  {
  }

  /** `news.json`, and the example file `initNewsFile` copies from. */
  class NewsStore {
    var file: NewsFile
    const example: NewsFile

    constructor (file: NewsFile, example: NewsFile)
      ensures this.file == file && this.example == example
    {
      this.file := file;
      this.example := example;
    }

    /** `initNewsFile`. */
    method InitNewsFile()
      modifies this`file
      ensures file == Initialized(old(file), example)
    {
      if file.Missing? {
        if !example.Missing? {
          file := example;
        } else {
          file := Stored([]);
        }
      }
    }

    /** `addNews`: the new item goes in front of the loaded list, which is written back. A file
        that could not be loaded is replaced by a list holding only the new item. */
    method AddNews(id: string, date: string, title: string, content: string, category: Option<string>)
      returns (item: NewsItem)
      modifies this`file
      ensures item == NewItem(id, date, title, content, category)
      ensures file == Stored([item] + LoadNews(old(file)))
    {
      var news := LoadNews(file);
      item := NewItem(id, date, title, content, category);
      news := [item] + news;
      file := Stored(news);
    }

    /** `removeNews`: the items with the id are filtered out and the list written back when that
        shortened it; otherwise it reports the id not found and writes nothing. */
    method RemoveNews(id: string) returns (found: bool)
      modifies this`file
      ensures found <==> exists i :: 0 <= i < |LoadNews(old(file))| && LoadNews(old(file))[i].id == id
      ensures found ==> file == Stored(Without(LoadNews(old(file)), id))
      ensures !found ==> file == old(file)
    {
      var news := LoadNews(file);
      var initialLength := |news|;
      var kept := Without(news, id);
      WithoutShrinksIffPresent(news, id);
      found := |kept| < initialLength;
      if found {
        file := Stored(kept);
      }
    }

    /** `markAllRead`: every item of the loaded list loses its `new` mark, nothing else about it
        changes, and the list is written back. */
    method MarkAllRead()
      modifies this`file
      ensures file.Stored?
      ensures |file.news| == |LoadNews(old(file))|
      ensures forall i :: 0 <= i < |file.news| ==> file.news[i] == LoadNews(old(file))[i].(isNew := false)
    {
      var news := LoadNews(file);
      ghost var loaded := news;
      var i := 0;
      while i < |news|
        invariant 0 <= i <= |news| == |loaded|
        invariant forall k :: 0 <= k < i ==> news[k] == loaded[k].(isNew := false)
        invariant forall k :: i <= k < |news| ==> news[k] == loaded[k]
      {
        news := news[i := news[i].(isNew := false)];
        i := i + 1;
      }
      file := Stored(news);
    }

    /** `main`: with arguments, the file is initialised first, then the dispatched command runs;
        a usage error, the help and an unknown command change nothing further. */
    method Run(args: seq<string>, newId: string, now: string) returns (action: Action)
      modifies this`file
      ensures action == Dispatch(args)
      ensures args == [] ==> file == old(file)
      ensures action.Add? ==>
        file == Stored([NewItem(newId, now, action.title, action.content, Some(action.category))]
                       + LoadNews(Initialized(old(file), example)))
      ensures action.Remove? ==>
        var loaded := LoadNews(Initialized(old(file), example));
        && ((exists i :: 0 <= i < |loaded| && loaded[i].id == action.id) ==> file == Stored(Without(loaded, action.id)))
        && (!(exists i :: 0 <= i < |loaded| && loaded[i].id == action.id) ==> file == Initialized(old(file), example))
      ensures action.ReadAll? ==> file.Stored? && forall i :: 0 <= i < |file.news| ==> !file.news[i].isNew
      ensures action.ReadAll? ==>
        var loaded := LoadNews(Initialized(old(file), example));
        && file.Stored? && |file.news| == |loaded|
        && forall i :: 0 <= i < |loaded| ==> file.news[i] == loaded[i].(isNew := false)
      ensures args != [] && (action.ShowHelp? || action.AddUsage? || action.RemoveUsage? || action.List? || action.Unknown?) ==>
        file == Initialized(old(file), example)
    {
      action := Dispatch(args);
      if args == [] {
        return;
      }
      InitNewsFile();
      match action
      case Add(title, content, category) =>
        var _ := AddNews(newId, now, title, content, Some(category));
      case Remove(id) =>
        var _ := RemoveNews(id);
      case ReadAll =>
        MarkAllRead();
      case _ =>
    }
  }

  /** Removing the id of an item just put in front of the list, when no other item shares it,
      gives back the earlier list. */
  lemma {:induction false} AddThenRemove(news: seq<NewsItem>, item: NewsItem)
    requires forall i :: 0 <= i < |news| ==> news[i].id != item.id
    ensures Without([item] + news, item.id) == news
  {
    WithoutDistributes([item], news, item.id);
    WithoutShrinksIffPresent(news, item.id);
  }
}
