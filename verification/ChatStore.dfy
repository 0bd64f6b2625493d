/** The chat store object: its setters write storage and memory, its rehydrate callback reads back. */
module ChatStores {
  import opened Prelude
  import opened WorkspaceContext
  import opened ChatDrafts

  method PruneEntries<T(==)>(m: Drafts<T>) returns (pruned: Drafts<T>)
    ensures pruned == Prune(m)
  {
    pruned := map[];
    var todo := m.Keys;
    while todo != {}
      invariant todo <= m.Keys
      invariant forall k :: k in pruned <==> k in m && k !in todo && m[k] != []
      invariant forall k :: k in pruned ==> pruned[k] == m[k]
      decreases todo
    {
      var k :| k in todo;
      if m[k] != [] {
        pruned := pruned[k := m[k]];
      }
      todo := todo - {k};
    }
  }

  method WriteDrafts<T(==)>(blobs: map<string, Drafts<T>>, key: string, m: Drafts<T>)
    returns (next: map<string, Drafts<T>>)
    ensures next == Write(blobs, key, m)
  {
    var pruned := PruneEntries(m);
    if pruned == map[] {
      next := blobs - {key};
    } else {
      next := blobs[key := pruned];
    }
  }

  class ChatStore {
    const workspace: Workspace
    var texts: Drafts<char>
    var files: Drafts<Attachment>
    var textBlobs: map<string, Drafts<char>>
    var fileBlobs: map<string, Drafts<Attachment>>

    ghost function Model(): Chat
      reads this, workspace
    {
      Chat(workspace.Model(), texts, files, textBlobs, fileBlobs)
    }

    constructor (workspace: Workspace, textBlobs: map<string, Drafts<char>>, fileBlobs: map<string, Drafts<Attachment>>)
      ensures this.workspace == workspace
      ensures Model() == Create(workspace.Model(), textBlobs, fileBlobs)
    {
      var key := WsKey(workspace.currentSlug);
      this.workspace, this.textBlobs, this.fileBlobs := workspace, textBlobs, fileBlobs;
      this.texts, this.files := Read(textBlobs, key), Prune(Read(fileBlobs, key));
    }

    method SetInputDraft(session: string, draft: string)
      modifies this
      ensures Model() == ChatStep(old(Model()), SetDraft(session, draft))
    {
      var next := texts[session := draft];
      textBlobs := WriteDrafts(textBlobs, WsKey(workspace.currentSlug), next);
      texts := next;
    }

    method SetInputDraftAttachments(session: string, attachments: seq<Attachment>)
      modifies this
      ensures Model() == ChatStep(old(Model()), SetFiles(session, attachments))
    {
      var next := files;
      if |attachments| > 0 {
        next := next[session := attachments];
      } else {
        next := next - {session};
      }
      fileBlobs := WriteDrafts(fileBlobs, WsKey(workspace.currentSlug), next);
      files := next;
    }

    method AddInputDraftAttachment(session: string, attachment: Attachment)
      modifies this
      ensures Model() == ChatStep(old(Model()), AddFile(session, attachment))
    {
      if attachment.id == "" { return; }
      var next := files[session := Upsert(Get(files, session), attachment)];
      fileBlobs := WriteDrafts(fileBlobs, WsKey(workspace.currentSlug), next);
      files := next;
    }

    method ClearInputDraft(session: string)
      modifies this
      ensures Model() == ChatStep(old(Model()), Clear(session))
    {
      if session !in texts && session !in files { return; }
      var nextTexts, nextFiles := texts - {session}, files - {session};
      textBlobs := WriteDrafts(textBlobs, WsKey(workspace.currentSlug), nextTexts);
      fileBlobs := WriteDrafts(fileBlobs, WsKey(workspace.currentSlug), nextFiles);
      texts, files := nextTexts, nextFiles;
    }

    /** The registered callback: read everything back for the workspace that is current now. */
    method OnRehydrate()
      modifies this
      ensures Model() == Reload(old(Model()))
    {
      var key := WsKey(workspace.currentSlug);
      texts := Read(textBlobs, key);
      files := PruneEntries(Read(fileBlobs, key));
    }

    method RunMicrotask(reacts: map<nat, Target>)
      modifies this, workspace
      ensures Model() == ChatStep(old(Model()), Ambient(Microtask(reacts)))
    {
      var task := workspace.RunMicrotask(reacts);
      if task == Some(Rehydrate) {
        OnRehydrate();
      }
    }
  }
}
